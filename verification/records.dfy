/** The data the scan, the classifier and the executor pass between them:
    one record per scanned directory, and the rows the treatment database returns. */
module Records {
  import Text

  datatype Option<+T> = None | Some(value: T)

  /** The four actions a directory can be given; no other action exists. */
  datatype Action = Keep | Archive | Delete | Ignore

  /** The upper-case name the source stores in each record's `action` key. */
  function ActionName(a: Action): string {
    match a
    case Keep => "KEEP"
    case Archive => "ARCHIVE"
    case Delete => "DELETE"
    case Ignore => "IGNORE"
  }

  /** One scanned directory. `mrn` is empty for a directory whose name does not
      follow the patient naming convention (the source leaves the key out);
      `lastFraction` is `None` until a treatment row supplies a date. */
  datatype DirectoryRecord = DirectoryRecord(
    path: string,
    dirName: string,
    action: Action,
    finishedTreatment: bool,
    clinicalTrial: bool,
    has4d: bool,
    lastFraction: Option<int>,
    dirSize: nat,
    mrn: string,
    name: string)

  predicate HasMrn(r: DirectoryRecord) {
    r.mrn != ""
  }

  /** Where the directory lives on disk: `os.path.join(path, dir_name)`. */
  function FullPath(r: DirectoryRecord): string {
    Text.PathJoin(r.path, r.dirName)
  }

  /** A finished-treatment row: one treatment field of one patient.
      Dates are integer seconds. */
  datatype TreatmentRow = TreatmentRow(
    mrn: string,
    lastName: string,
    firstName: string,
    middleName: string,
    prescribed: int,
    delivered: int,
    lastFraction: int)

  /** A clinical-trial or 4D row: only the patient identity is used. */
  datatype PersonRow = PersonRow(
    mrn: string,
    lastName: string,
    firstName: string,
    middleName: string)

  function TreatmentMrn(t: TreatmentRow): string { t.mrn }
  function PersonMrn(t: PersonRow): string { t.mrn }

  /** The rows of one patient: those whose `IDA` column is the patient's MRN, in
      reply order, as the classifier selects them from each database reply. */
  function RowsFor<T(!new)>(rows: seq<T>, mrnOf: T -> string, mrn: string): (r: seq<T>)
    ensures |r| <= |rows|
    ensures forall i :: 0 <= i < |r| ==> mrnOf(r[i]) == mrn
    ensures forall t :: t in r <==> t in rows && mrnOf(t) == mrn
    decreases |rows|
  {
    if |rows| == 0 then []
    else if mrnOf(rows[0]) == mrn then [rows[0]] + RowsFor(rows[1..], mrnOf, mrn)
    else RowsFor(rows[1..], mrnOf, mrn)
  }

  /** The selection keeps order and multiplicity: it distributes over
      concatenation, and a single row is kept exactly when its MRN matches. */
  lemma {:induction false} RowsForAppend<T(!new)>(a: seq<T>, b: seq<T>, mrnOf: T -> string, mrn: string)
    ensures RowsFor(a + b, mrnOf, mrn) == RowsFor(a, mrnOf, mrn) + RowsFor(b, mrnOf, mrn)
    ensures |a| == 1 ==> RowsFor(a, mrnOf, mrn) == (if mrnOf(a[0]) == mrn then a else [])
    decreases |a|
  {
    if |a| > 0 {
      assert (a + b)[1..] == a[1..] + b;
      RowsForAppend(a[1..], b, mrnOf, mrn);
      if mrnOf(a[0]) == mrn {
        calc {
          RowsFor(a + b, mrnOf, mrn);
          [a[0]] + RowsFor(a[1..] + b, mrnOf, mrn);
          [a[0]] + (RowsFor(a[1..], mrnOf, mrn) + RowsFor(b, mrnOf, mrn));
          ([a[0]] + RowsFor(a[1..], mrnOf, mrn)) + RowsFor(b, mrnOf, mrn);
        }
      }
      if |a| == 1 {
        assert a[1..] == [];
        assert a == [a[0]];
      }
    } else {
      assert a + b == b;
    }
  }

  /** `Last_Name + ' ' + First_Name + ' ' + MIddle_Name`. */
  function FullName(last: string, first: string, middle: string): string {
    last + " " + first + " " + middle
  }

  /** Records whose action is `a`, in their original order. */
  function WithAction(dirs: seq<DirectoryRecord>, a: Action): (r: seq<DirectoryRecord>)
    ensures |r| <= |dirs|
    ensures forall i :: 0 <= i < |r| ==> r[i].action == a
    ensures forall d :: d in r <==> d in dirs && d.action == a
    decreases |dirs|
  {
    if |dirs| == 0 then []
    else if dirs[0].action == a then [dirs[0]] + WithAction(dirs[1..], a)
    else WithAction(dirs[1..], a)
  }

  lemma {:induction false} WithActionAppend(a: seq<DirectoryRecord>, b: seq<DirectoryRecord>, act: Action)
    ensures WithAction(a + b, act) == WithAction(a, act) + WithAction(b, act)
    decreases |a|
  {
    if |a| > 0 {
      assert (a + b)[1..] == a[1..] + b;
      WithActionAppend(a[1..], b, act);
    } else {
      assert a + b == b;
    }
  }

  function Min(a: nat, b: nat): nat {
    if a < b then a else b
  }

  /** The elements of some batches, in order. */
  function Flatten<T>(batches: seq<seq<T>>): seq<T>
    decreases |batches|
  {
    if |batches| == 0 then [] else batches[0] + Flatten(batches[1..])
  }
}
