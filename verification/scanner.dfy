/** The directory scan of `ScanPathsTask.get_directories` (tools.py): every
    sub-directory of every reachable configured root becomes one record, classified
    by its name as a patient directory (KEEP) or not (IGNORE). */
module Scanner {
  import opened Records
  import opened Text

  /** A sub-directory as `os.listdir` + `os.path.isdir` report it, with the size
      `get_size` would compute for it. */
  datatype SubDir = SubDir(name: string, size: nat)

  /** A configured root; `listing` is `None` when listing the root raised
      (an unreachable network location). */
  datatype Root = Root(path: string, listing: Option<seq<SubDir>>)

  const PatientPrefix: string := "patient"
  const MrnLength: nat := 7

  /** The MRN of a directory named by the convention `patient_<MRN>[_...]`.
      Only the first `_`-segment (case-insensitively) and the length of the second
      are checked; any further segments are accepted. */
  function ParseMrn(dirName: string): (m: Option<string>)
    ensures m.Some? ==> |m.value| == MrnLength && '_' !in m.value
  {
    var parts := Split(dirName, '_');
    if |parts| >= 2 && Lower(parts[0]) == PatientPrefix && |parts[1]| == MrnLength
    then Some(parts[1])
    else None
  }

  /** The shape of a patient directory name, stated without `Split`:
      a separator-free head reading "patient" in any case, `_`, a seven-character
      separator-free MRN, then nothing or another `_`-segment. */
  predicate PatientShape(dirName: string, head: string, mrn: string, tail: string) {
    && dirName == head + "_" + mrn + tail
    && '_' !in head && '_' !in mrn
    && Lower(head) == PatientPrefix && |mrn| == MrnLength
    && (tail == "" || tail[0] == '_')
  }

  /** Every name of the patient shape parses to its MRN, whatever follows it. */
  lemma ParseMrnAccepts(dirName: string, head: string, mrn: string, tail: string)
    requires PatientShape(dirName, head, mrn, tail)
    ensures ParseMrn(dirName) == Some(mrn)
  {
    if tail == "" {
      SplitWithoutSep(mrn, '_');
      assert dirName == head + ['_'] + mrn;
      SplitAfterPrefix(head, '_', mrn);
    } else {
      var rest := tail[1..];
      assert tail == ['_'] + rest;
      assert dirName == head + ['_'] + (mrn + ['_'] + rest);
      SplitAfterPrefix(head, '_', mrn + ['_'] + rest);
      SplitAfterPrefix(mrn, '_', rest);
    }
  }

  /** Every name that parses has the patient shape. */
  lemma ParseMrnShape(dirName: string)
    requires ParseMrn(dirName).Some?
    ensures exists head, tail :: PatientShape(dirName, head, ParseMrn(dirName).value, tail)
  {
    var parts := Split(dirName, '_');
    JoinSplit(dirName, '_');
    var tail := if |parts| == 2 then "" else "_" + JoinWith(parts[2..], "_");
    assert JoinWith(parts[1..], "_") == parts[1] + tail;
    assert dirName == parts[0] + "_" + JoinWith(parts[1..], "_");
    assert PatientShape(dirName, parts[0], parts[1], tail);
  }

  /** One scanned directory before classification (tools.py:209-239). */
  function NewRecord(root: string, d: SubDir, ignoreMrns: seq<string>, quick: bool): (r: DirectoryRecord)
    ensures r.path == root && r.dirName == d.name
    ensures !r.finishedTreatment && !r.clinicalTrial && !r.has4d
    ensures r.lastFraction == None && r.name == ""
    ensures r.dirSize == if quick then 0 else d.size
    ensures r.action == Keep || r.action == Ignore
    ensures r.action == Keep <==> ParseMrn(d.name).Some? && ParseMrn(d.name).value !in ignoreMrns
    ensures HasMrn(r) <==> ParseMrn(d.name).Some?
    ensures HasMrn(r) ==> Some(r.mrn) == ParseMrn(d.name)
  {
    var m := ParseMrn(d.name);
    DirectoryRecord(
      path := root,
      dirName := d.name,
      action := if m.Some? && m.value !in ignoreMrns then Keep else Ignore,
      finishedTreatment := false,
      clinicalTrial := false,
      has4d := false,
      lastFraction := None,
      dirSize := if quick then 0 else d.size,
      mrn := if m.Some? then m.value else "",
      name := "")
  }

  /** The records of one root when nothing is cancelled. */
  function RootRecords(root: Root, ignoreMrns: seq<string>, quick: bool): (r: seq<DirectoryRecord>)
    ensures root.listing.None? ==> r == []
    ensures root.listing.Some? ==> |r| == |root.listing.value|
    ensures forall i :: 0 <= i < |r| ==> r[i] == NewRecord(root.path, root.listing.value[i], ignoreMrns, quick)
  {
    match root.listing
    case None => []
    case Some(dirs) => seq(|dirs|, i requires 0 <= i < |dirs| => NewRecord(root.path, dirs[i], ignoreMrns, quick))
  }

  /** The records of all roots, in root order, when nothing is cancelled. */
  function AllRecords(roots: seq<Root>, ignoreMrns: seq<string>, quick: bool): seq<DirectoryRecord>
    decreases |roots|
  {
    if |roots| == 0 then []
    else RootRecords(roots[0], ignoreMrns, quick) + AllRecords(roots[1..], ignoreMrns, quick)
  }

  /** How many more cancellation checks pass once `checks` of them have passed,
      when the flag is first seen at check number `cancelAt`. */
  function Remaining(cancelAt: nat, checks: nat): nat {
    if cancelAt <= checks then 0 else cancelAt - checks
  }

  /** The inner loop over one root's directories: the flag is checked before each
      directory, and a set flag ends the loop (tools.py:204-207). */
  function ScanDirs(root: string, dirs: seq<SubDir>, ignoreMrns: seq<string>, quick: bool,
                    checks: nat, cancelAt: nat): seq<DirectoryRecord>
    decreases |dirs|
  {
    if |dirs| == 0 || cancelAt <= checks then []
    else [NewRecord(root, dirs[0], ignoreMrns, quick)]
         + ScanDirs(root, dirs[1..], ignoreMrns, quick, checks + 1, cancelAt)
  }

  /** The outer loop over roots; an unreachable root is skipped (tools.py:198-203). */
  function ScanRoots(roots: seq<Root>, ignoreMrns: seq<string>, quick: bool,
                     checks: nat, cancelAt: nat): seq<DirectoryRecord>
    decreases |roots|
  {
    if |roots| == 0 then []
    else match roots[0].listing
      case None => ScanRoots(roots[1..], ignoreMrns, quick, checks, cancelAt)
      case Some(dirs) =>
        var here := ScanDirs(roots[0].path, dirs, ignoreMrns, quick, checks, cancelAt);
        here + ScanRoots(roots[1..], ignoreMrns, quick, checks + |here|, cancelAt)
  }

  /** `get_directories` with the cancellation flag first seen at check `cancelAt`. */
  function GetDirectories(roots: seq<Root>, ignoreMrns: seq<string>, quick: bool, cancelAt: nat): seq<DirectoryRecord>
  {
    ScanRoots(roots, ignoreMrns, quick, 0, cancelAt)
  }

  lemma {:induction false} ScanDirsPrefix(root: Root, ignoreMrns: seq<string>, quick: bool, dirs: seq<SubDir>,
                                          checks: nat, cancelAt: nat)
    requires root.listing == Some(dirs)
    ensures var all := RootRecords(root, ignoreMrns, quick);
            ScanDirs(root.path, dirs, ignoreMrns, quick, checks, cancelAt) == all[..Min(Remaining(cancelAt, checks), |all|)]
    decreases |dirs|
  {
    if |dirs| > 0 && checks < cancelAt {
      var rest := Root(root.path, Some(dirs[1..]));
      ScanDirsPrefix(rest, ignoreMrns, quick, dirs[1..], checks + 1, cancelAt);
      var all := RootRecords(root, ignoreMrns, quick);
      var allRest := RootRecords(rest, ignoreMrns, quick);
      assert all == [all[0]] + allRest;
    }
  }

  /** Cutting two concatenated listings at one budget. */
  lemma PrefixConcat(first: seq<DirectoryRecord>, rest: seq<DirectoryRecord>,
                     here: seq<DirectoryRecord>, tail: seq<DirectoryRecord>, budget: nat)
    requires here == first[..Min(budget, |first|)]
    requires budget < |first| ==> tail == []
    requires budget >= |first| ==> tail == rest[..Min(budget - |first|, |rest|)]
    ensures here + tail == (first + rest)[..Min(budget, |first + rest|)]
  {
    if budget >= |first| {
      assert (first + rest)[..|first| + Min(budget - |first|, |rest|)] == first + rest[..Min(budget - |first|, |rest|)];
    }
  }

  lemma {:induction false} ScanRootsPrefix(roots: seq<Root>, ignoreMrns: seq<string>, quick: bool,
                                           checks: nat, cancelAt: nat)
    ensures var all := AllRecords(roots, ignoreMrns, quick);
            ScanRoots(roots, ignoreMrns, quick, checks, cancelAt) == all[..Min(Remaining(cancelAt, checks), |all|)]
    decreases |roots|
  {
    if |roots| > 0 {
      var first := RootRecords(roots[0], ignoreMrns, quick);
      var rest := AllRecords(roots[1..], ignoreMrns, quick);
      assert AllRecords(roots, ignoreMrns, quick) == first + rest;
      match roots[0].listing
      case None =>
        ScanRootsPrefix(roots[1..], ignoreMrns, quick, checks, cancelAt);
        assert ScanRoots(roots, ignoreMrns, quick, checks, cancelAt)
            == ScanRoots(roots[1..], ignoreMrns, quick, checks, cancelAt);
        assert first + rest == rest;
      case Some(dirs) =>
        var budget := Remaining(cancelAt, checks);
        var here := ScanDirs(roots[0].path, dirs, ignoreMrns, quick, checks, cancelAt);
        assert here == first[..Min(budget, |first|)] by {
          ScanDirsPrefix(roots[0], ignoreMrns, quick, dirs, checks, cancelAt);
        }
        RemainingStep(cancelAt, checks, |here|, |first|);
        var tail := ScanRoots(roots[1..], ignoreMrns, quick, checks + |here|, cancelAt);
        assert tail == rest[..Min(Remaining(cancelAt, checks + |here|), |rest|)] by {
          ScanRootsPrefix(roots[1..], ignoreMrns, quick, checks + |here|, cancelAt);
        }
        assert ScanRoots(roots, ignoreMrns, quick, checks, cancelAt) == here + tail;
        PrefixConcat(first, rest, here, tail, budget);
    }
  }

  /** The checks left after one root has taken its share of them. */
  lemma RemainingStep(cancelAt: nat, checks: nat, taken: nat, available: nat)
    requires taken == Min(Remaining(cancelAt, checks), available)
    ensures Remaining(cancelAt, checks) < available ==> Remaining(cancelAt, checks + taken) == 0
    ensures Remaining(cancelAt, checks) >= available ==>
              Remaining(cancelAt, checks + taken) == Remaining(cancelAt, checks) - available
  {
  }

  /** The scan yields, in root and listing order, exactly the first `cancelAt`
      records of the uncancelled scan: no record is added once the flag is seen. */
  lemma ScanIsPrefix(roots: seq<Root>, ignoreMrns: seq<string>, quick: bool, cancelAt: nat)
    ensures var all := AllRecords(roots, ignoreMrns, quick);
            var got := GetDirectories(roots, ignoreMrns, quick, cancelAt);
            && |got| == Min(cancelAt, |all|)
            && got == all[..|got|]
  {
    ScanRootsPrefix(roots, ignoreMrns, quick, 0, cancelAt);
  }

  /** The facts every freshly scanned record satisfies. */
  predicate Fresh(r: DirectoryRecord, ignoreMrns: seq<string>, quick: bool) {
    && (r.action == Keep || r.action == Ignore)
    && (r.action == Keep <==> ParseMrn(r.dirName).Some? && ParseMrn(r.dirName).value !in ignoreMrns)
    && (HasMrn(r) <==> ParseMrn(r.dirName).Some?)
    && !r.finishedTreatment && !r.clinicalTrial && !r.has4d
    && r.lastFraction == None && r.name == ""
    && (quick ==> r.dirSize == 0)
  }

  lemma {:induction false} AllRecordsFresh(roots: seq<Root>, ignoreMrns: seq<string>, quick: bool)
    ensures forall r :: r in AllRecords(roots, ignoreMrns, quick) ==> Fresh(r, ignoreMrns, quick)
    decreases |roots|
  {
    if |roots| > 0 {
      AllRecordsFresh(roots[1..], ignoreMrns, quick);
    }
  }

  /** Every scanned record starts KEEP or IGNORE with all patient flags false; it
      is KEEP exactly when its name parses to an MRN that is not ignored; quick
      scans record size 0. */
  lemma ScanRecordsFresh(roots: seq<Root>, ignoreMrns: seq<string>, quick: bool, cancelAt: nat)
    ensures forall r :: r in GetDirectories(roots, ignoreMrns, quick, cancelAt) ==> Fresh(r, ignoreMrns, quick)
  {
    ScanIsPrefix(roots, ignoreMrns, quick, cancelAt);
    AllRecordsFresh(roots, ignoreMrns, quick);
    var all := AllRecords(roots, ignoreMrns, quick);
    var got := GetDirectories(roots, ignoreMrns, quick, cancelAt);
    forall r | r in got
      ensures r in all
    {
      var i :| 0 <= i < |got| && got[i] == r;
      assert all[i] == r;
    }
  }
}
