/** The patient-status decision of `ScanPathsTask.fetch_patient_info` (tools.py):
    merges the three database replies into each non-IGNORE record and sets its action. */
module Classifier {
  import opened Records

  /** Dates and `now` are integer seconds. */
  const Day: int := 86400
  /** Patients whose last fraction is this recent are not yet finished. */
  const GracePeriod: int := 14 * Day

  /** The treatment rows of one patient, in reply order (tools.py:274). */
  function TreatmentFor(rows: seq<TreatmentRow>, mrn: string): seq<TreatmentRow> {
    RowsFor(rows, TreatmentMrn, mrn)
  }

  /** The clinical-trial or 4D rows of one patient, in reply order (tools.py:307, 315). */
  function PeopleFor(rows: seq<PersonRow>, mrn: string): seq<PersonRow> {
    RowsFor(rows, PersonMrn, mrn)
  }

  /** `m` is the latest last-fraction date among `rows` and the date `prior`
      already recorded (if any). */
  predicate IsLatest(m: int, rows: seq<TreatmentRow>, prior: Option<int>) {
    && (forall i :: 0 <= i < |rows| ==> rows[i].lastFraction <= m)
    && (prior.Some? ==> prior.value <= m)
    && ((exists i :: 0 <= i < |rows| && rows[i].lastFraction == m) || (prior.Some? && prior.value == m))
  }

  predicate AllDelivered(rows: seq<TreatmentRow>) {
    forall i :: 0 <= i < |rows| ==> rows[i].prescribed == rows[i].delivered
  }

  /** The loop over one patient's treatment fields (tools.py:284-299): the name of
      every row is assigned in turn, the latest date is kept, and any field whose
      delivered count differs from its prescription clears the finished flag. */
  function ApplyTreatmentRows(p: DirectoryRecord, rows: seq<TreatmentRow>): (r: DirectoryRecord)
    ensures r == p.(name := r.name, lastFraction := r.lastFraction, finishedTreatment := r.finishedTreatment)
    ensures r.finishedTreatment == (p.finishedTreatment && AllDelivered(rows))
    ensures |rows| == 0 ==> r == p
    ensures |rows| > 0 ==> r.name == FullName(rows[|rows| - 1].lastName, rows[|rows| - 1].firstName, rows[|rows| - 1].middleName)
    ensures |rows| > 0 ==> r.lastFraction.Some? && IsLatest(r.lastFraction.value, rows, p.lastFraction)
    decreases |rows|
  {
    if |rows| == 0 then p
    else
      var ft := rows[0];
      var date := match p.lastFraction
        case Some(d) => if ft.lastFraction > d then ft.lastFraction else d
        case None => ft.lastFraction;
      var p' := p.(name := FullName(ft.lastName, ft.firstName, ft.middleName),
                   lastFraction := Some(date),
                   finishedTreatment := p.finishedTreatment && ft.prescribed == ft.delivered);
      var r := ApplyTreatmentRows(p', rows[1..]);
      assert |rows| > 1 ==> IsLatest(r.lastFraction.value, rows, p.lastFraction) by {
        if |rows| > 1 {
          var m := r.lastFraction.value;
          assert forall i :: 1 <= i < |rows| ==> rows[i] == rows[1..][i - 1];
          if exists i :: 0 <= i < |rows[1..]| && rows[1..][i].lastFraction == m {
            var i :| 0 <= i < |rows[1..]| && rows[1..][i].lastFraction == m;
            assert rows[i + 1].lastFraction == m;
          }
        }
      }
      r
  }

  /** The date lies within the grace period before `now` (the bound included). */
  predicate Recent(d: Option<int>, now: int) {
    d.Some? && now - GracePeriod <= d.value
  }

  /** The action a finished patient gets. */
  function Decide(finished: bool, trial: bool, has4d: bool, current: Action): Action {
    if finished then (if trial || has4d then Archive else Delete) else current
  }

  /** One iteration of the classification loop (tools.py:266-329). */
  function ClassifyRecord(p: DirectoryRecord, treatment: seq<TreatmentRow>, trials: seq<PersonRow>,
                          fourD: seq<PersonRow>, now: int): (r: DirectoryRecord)
    ensures p.action == Ignore ==> r == p
    ensures r.path == p.path && r.dirName == p.dirName && r.mrn == p.mrn && r.dirSize == p.dirSize
  {
    if p.action == Ignore then p
    else
      var p3 := WithTreatment(p, TreatmentFor(treatment, p.mrn), now);
      var p5 := WithPeople(p3, PeopleFor(trials, p.mrn), PeopleFor(fourD, p.mrn));
      p5.(action := Decide(p5.finishedTreatment, p5.clinicalTrial, p5.has4d, p5.action))
  }

  /** The treatment fields of a record that is not IGNORE after one iteration:
      the latest fraction date is taken, and the patient is finished only when
      every field of its rows is delivered and no fraction is recent. */
  lemma ClassifyTreatment(p: DirectoryRecord, treatment: seq<TreatmentRow>, trials: seq<PersonRow>,
                          fourD: seq<PersonRow>, now: int)
    requires p.action != Ignore
    ensures var r := ClassifyRecord(p, treatment, trials, fourD, now);
      var ft := TreatmentFor(treatment, p.mrn);
      && (|ft| == 0 ==> r.lastFraction == p.lastFraction)
      && (|ft| > 0 ==> r.lastFraction.Some? && IsLatest(r.lastFraction.value, ft, p.lastFraction))
      && r.finishedTreatment == ((if |ft| > 0 then AllDelivered(ft) else p.finishedTreatment)
                                 && !Recent(r.lastFraction, now))
  {
    var p3 := WithTreatment(p, TreatmentFor(treatment, p.mrn), now);
    var p5 := WithPeople(p3, PeopleFor(trials, p.mrn), PeopleFor(fourD, p.mrn));
    assert ClassifyRecord(p, treatment, trials, fourD, now).lastFraction == p3.lastFraction;
    assert ClassifyRecord(p, treatment, trials, fourD, now).finishedTreatment == p3.finishedTreatment;
  }

  /** The trial and 4D flags of a record that is not IGNORE after one iteration:
      each is raised by any row of the patient. */
  lemma ClassifyFlags(p: DirectoryRecord, treatment: seq<TreatmentRow>, trials: seq<PersonRow>,
                      fourD: seq<PersonRow>, now: int)
    requires p.action != Ignore
    ensures var r := ClassifyRecord(p, treatment, trials, fourD, now);
      && r.clinicalTrial == (p.clinicalTrial || |PeopleFor(trials, p.mrn)| > 0)
      && r.has4d == (p.has4d || |PeopleFor(fourD, p.mrn)| > 0)
  {
    var p3 := WithTreatment(p, TreatmentFor(treatment, p.mrn), now);
    var p5 := WithPeople(p3, PeopleFor(trials, p.mrn), PeopleFor(fourD, p.mrn));
    var r := ClassifyRecord(p, treatment, trials, fourD, now);
    assert r.clinicalTrial == p5.clinicalTrial && r.has4d == p5.has4d;
  }

  /** The name of a record that is not IGNORE after one iteration: from the first
      4D row, else the first trial row, else the last treatment row. */
  lemma ClassifyName(p: DirectoryRecord, treatment: seq<TreatmentRow>, trials: seq<PersonRow>,
                     fourD: seq<PersonRow>, now: int)
    requires p.action != Ignore
    ensures var r := ClassifyRecord(p, treatment, trials, fourD, now);
      var ft := TreatmentFor(treatment, p.mrn);
      var ct := PeopleFor(trials, p.mrn);
      var h4 := PeopleFor(fourD, p.mrn);
      r.name == (if |h4| > 0 then FullName(h4[0].lastName, h4[0].firstName, h4[0].middleName)
                 else if |ct| > 0 then FullName(ct[0].lastName, ct[0].firstName, ct[0].middleName)
                 else if |ft| > 0 then FullName(ft[|ft| - 1].lastName, ft[|ft| - 1].firstName, ft[|ft| - 1].middleName)
                 else p.name)
  {
    var p3 := WithTreatment(p, TreatmentFor(treatment, p.mrn), now);
    var p5 := WithPeople(p3, PeopleFor(trials, p.mrn), PeopleFor(fourD, p.mrn));
    assert ClassifyRecord(p, treatment, trials, fourD, now).name == p5.name;
  }

  /** The action a record that is not IGNORE gets: a finished patient becomes
      ARCHIVE with a trial or 4D data and DELETE without; any other keeps its
      action. */
  lemma ClassifyAction(p: DirectoryRecord, treatment: seq<TreatmentRow>, trials: seq<PersonRow>,
                       fourD: seq<PersonRow>, now: int)
    requires p.action != Ignore
    ensures var r := ClassifyRecord(p, treatment, trials, fourD, now);
      && (r.finishedTreatment ==> r.action == (if r.clinicalTrial || r.has4d then Archive else Delete))
      && (!r.finishedTreatment ==> r.action == p.action)
  {
    var p3 := WithTreatment(p, TreatmentFor(treatment, p.mrn), now);
    var p5 := WithPeople(p3, PeopleFor(trials, p.mrn), PeopleFor(fourD, p.mrn));
    assert p5.action == p.action;
  }

  /** The treatment part of one iteration (tools.py:277-304): a patient with rows
      starts finished, the field loop runs, and a recent fraction clears the flag. */
  function WithTreatment(p: DirectoryRecord, ft: seq<TreatmentRow>, now: int): (r: DirectoryRecord)
    ensures r == p.(name := r.name, lastFraction := r.lastFraction, finishedTreatment := r.finishedTreatment)
    ensures |ft| == 0 ==> r.lastFraction == p.lastFraction && r.name == p.name
    ensures |ft| > 0 ==> r.lastFraction.Some? && IsLatest(r.lastFraction.value, ft, p.lastFraction)
    ensures |ft| > 0 ==> r.name == FullName(ft[|ft| - 1].lastName, ft[|ft| - 1].firstName, ft[|ft| - 1].middleName)
    ensures r.finishedTreatment == ((if |ft| > 0 then AllDelivered(ft) else p.finishedTreatment) && !Recent(r.lastFraction, now))
  {
    var p1 := if |ft| > 0 then p.(finishedTreatment := true) else p;
    var p2 := ApplyTreatmentRows(p1, ft);
    if Recent(p2.lastFraction, now) then p2.(finishedTreatment := false) else p2
  }

  /** The trial and 4D part of one iteration (tools.py:307-321): each flag is
      raised by any row, and the name comes from the first 4D row, else the first
      trial row. */
  function WithPeople(p: DirectoryRecord, ct: seq<PersonRow>, h4: seq<PersonRow>): (r: DirectoryRecord)
    ensures r == p.(clinicalTrial := r.clinicalTrial, has4d := r.has4d, name := r.name)
    ensures r.clinicalTrial == (p.clinicalTrial || |ct| > 0) && r.has4d == (p.has4d || |h4| > 0)
    ensures r.name == (if |h4| > 0 then FullName(h4[0].lastName, h4[0].firstName, h4[0].middleName)
                       else if |ct| > 0 then FullName(ct[0].lastName, ct[0].firstName, ct[0].middleName)
                       else p.name)
  {
    var p4 := if |ct| > 0 then p.(clinicalTrial := true, name := FullName(ct[0].lastName, ct[0].firstName, ct[0].middleName)) else p;
    if |h4| > 0 then p4.(has4d := true, name := FullName(h4[0].lastName, h4[0].firstName, h4[0].middleName)) else p4
  }

  /** The MRNs sent to the database: every record that carries one, IGNORE
      records included (tools.py:255). */
  function QueryMrns(dirs: seq<DirectoryRecord>): (mrns: seq<string>)
    ensures |mrns| <= |dirs|
    ensures forall m :: m in mrns <==> exists d :: d in dirs && HasMrn(d) && d.mrn == m
    decreases |dirs|
  {
    if |dirs| == 0 then []
    else (if HasMrn(dirs[0]) then [dirs[0].mrn] else []) + QueryMrns(dirs[1..])
  }

  /** The whole classification pass over the scanned records. */
  function Classify(dirs: seq<DirectoryRecord>, treatment: seq<TreatmentRow>, trials: seq<PersonRow>,
                    fourD: seq<PersonRow>, now: int): (r: seq<DirectoryRecord>)
    ensures |r| == |dirs|
    ensures forall i :: 0 <= i < |dirs| ==> r[i] == ClassifyRecord(dirs[i], treatment, trials, fourD, now)
  {
    seq(|dirs|, i requires 0 <= i < |dirs| => ClassifyRecord(dirs[i], treatment, trials, fourD, now))
  }

  /** A freshly scanned patient record: KEEP, flags false, no date yet. */
  predicate Unclassified(p: DirectoryRecord) {
    p.action == Keep && !p.finishedTreatment && !p.clinicalTrial && !p.has4d && p.lastFraction.None?
  }

  /** The decision table for a freshly scanned record: finished means at least one
      treatment row, every field fully delivered, and a latest fraction older than
      the grace period; a finished patient is archived when on a trial or with 4D
      data and deleted otherwise; everything else stays KEEP. */
  lemma DecisionTable(p: DirectoryRecord, treatment: seq<TreatmentRow>, trials: seq<PersonRow>,
                      fourD: seq<PersonRow>, now: int)
    requires Unclassified(p)
    ensures var r := ClassifyRecord(p, treatment, trials, fourD, now);
            var ft := TreatmentFor(treatment, p.mrn);
            var finished := |ft| > 0 && AllDelivered(ft) && forall i :: 0 <= i < |ft| ==> ft[i].lastFraction < now - GracePeriod;
            var trial := |PeopleFor(trials, p.mrn)| > 0;
            var has4d := |PeopleFor(fourD, p.mrn)| > 0;
            && r.finishedTreatment == finished
            && (r.action == Archive <==> finished && (trial || has4d))
            && (r.action == Delete <==> finished && !trial && !has4d)
            && (r.action == Keep <==> !finished)
  {
    var ft := TreatmentFor(treatment, p.mrn);
    var r := ClassifyRecord(p, treatment, trials, fourD, now);
    ClassifyTreatment(p, treatment, trials, fourD, now);
    ClassifyFlags(p, treatment, trials, fourD, now);
    ClassifyAction(p, treatment, trials, fourD, now);
    if |ft| > 0 {
      var i :| 0 <= i < |ft| && ft[i].lastFraction == r.lastFraction.value;
    }
  }

  /** A fraction delivered within the last fourteen days (inclusive) keeps a
      patient, even with every fraction delivered. */
  lemma GracePeriodKeeps(p: DirectoryRecord, treatment: seq<TreatmentRow>, trials: seq<PersonRow>,
                         fourD: seq<PersonRow>, now: int, t: TreatmentRow)
    requires Unclassified(p)
    requires t in treatment && t.mrn == p.mrn && now - GracePeriod <= t.lastFraction
    ensures ClassifyRecord(p, treatment, trials, fourD, now).action == Keep
  {
    var ft := TreatmentFor(treatment, p.mrn);
    var r := ClassifyRecord(p, treatment, trials, fourD, now);
    ClassifyTreatment(p, treatment, trials, fourD, now);
    ClassifyAction(p, treatment, trials, fourD, now);
    assert t in ft;
    var i :| 0 <= i < |ft| && ft[i] == t;
    assert t.lastFraction <= r.lastFraction.value;
  }
}
