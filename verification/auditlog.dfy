/** The `actioned.yaml` audit log the executor rewrites after every directory it
    removes (tools.py:433-459): two lists, ARCHIVED and DELETED, of "MRN on date"
    entries. The file is read, one entry appended, and the whole file written back. */
module AuditLog {
  import opened Records

  /** What the YAML reader gives for one key: the key is missing, present with a
      null value (`ARCHIVED:` or `ARCHIVED: ~`), or present with a list. */
  datatype KeyValue = Missing | Null | List(texts: seq<string>)

  /** The file as the YAML reader sees it. `Unreadable` covers a missing file, a
      parse error and an empty document. */
  datatype AuditFile = Unreadable | Document(archived: KeyValue, deleted: KeyValue)

  /** The list a present key contributes: a null value and an empty list are both
      falsy, so either leaves the list empty. */
  function Texts(v: KeyValue): seq<string> {
    if v.List? then v.texts else []
  }

  /** One directory successfully actioned. */
  datatype AuditEntry = AuditEntry(action: Action, mrn: string, date: string)

  function EntryText(mrn: string, date: string): string {
    mrn + " on " + date
  }

  /** The ARCHIVED and DELETED lists. */
  datatype Lists = Lists(archived: seq<string>, deleted: seq<string>)

  /** The two lists the executor starts from. A missing ARCHIVED key fails before
      either list is taken, so both start empty; a missing DELETED key fails after
      ARCHIVED has been taken, so only DELETED starts empty. A null value fails
      nothing: the test on it is false and the other key is still read. */
  function Load(f: AuditFile): (lists: Lists)
    ensures f.Unreadable? ==> lists == Lists([], [])
    ensures f.Document? && f.archived.Missing? ==> lists == Lists([], [])
    ensures f.Document? && f.archived.List? ==> lists.archived == f.archived.texts
    ensures f.Document? && f.archived.Null? ==> lists == Lists([], Texts(f.deleted))
    ensures f.Document? && !f.archived.Missing? && f.deleted.List? ==> lists.deleted == f.deleted.texts
    ensures f.Document? && (f.deleted.Missing? || f.deleted.Null?) ==> lists.deleted == []
  {
    match f
    case Unreadable => Lists([], [])
    case Document(archived, deleted) =>
      if archived.Missing? then Lists([], [])
      else Lists(Texts(archived), Texts(deleted))
  }

  /** A file whose two keys are present, as every file the executor writes is. */
  predicate WellFormed(f: AuditFile) {
    f.Document? && f.archived.List? && f.deleted.List?
  }

  /** A well-formed file reads back exactly as written. */
  lemma LoadWellFormed(f: AuditFile)
    requires WellFormed(f)
    ensures Load(f) == Lists(f.archived.texts, f.deleted.texts)
  {
  }

  /** The text `e` contributes to the list for action `a`: one entry or none. */
  function TextFor(e: AuditEntry, a: Action): seq<string> {
    if e.action == a then [EntryText(e.mrn, e.date)] else []
  }

  /** Read, append the entry to the list its action names, write back. */
  function Record(f: AuditFile, e: AuditEntry): (g: AuditFile)
    ensures WellFormed(g)
    ensures e.action == Archive ==> g.archived.texts == Load(f).archived + [EntryText(e.mrn, e.date)] && g.deleted.texts == Load(f).deleted
    ensures e.action == Delete ==> g.archived.texts == Load(f).archived && g.deleted.texts == Load(f).deleted + [EntryText(e.mrn, e.date)]
    ensures e.action != Archive && e.action != Delete ==> g == Document(List(Load(f).archived), List(Load(f).deleted))
  {
    var lists := Load(f);
    assert lists.archived + [] == lists.archived && lists.deleted + [] == lists.deleted;
    Document(List(lists.archived + TextFor(e, Archive)), List(lists.deleted + TextFor(e, Delete)))
  }

  lemma RecordLoads(f: AuditFile, e: AuditEntry)
    ensures Load(Record(f, e)) == Lists(Load(f).archived + TextFor(e, Archive), Load(f).deleted + TextFor(e, Delete))
  {
    LoadWellFormed(Record(f, e));
  }

  /** Recording entries one after another: no entry leaves the file untouched,
      and any entry leaves it well formed, with both keys present. */
  function RecordAll(f: AuditFile, es: seq<AuditEntry>): (g: AuditFile)
    ensures |es| == 0 ==> g == f
    ensures |es| > 0 ==> WellFormed(g)
    decreases |es|
  {
    if |es| == 0 then f else RecordAll(Record(f, es[0]), es[1..])
  }

  /** The entry texts of the entries for `a`, in order. */
  function TextsFor(es: seq<AuditEntry>, a: Action): (texts: seq<string>)
    ensures |texts| <= |es|
    decreases |es|
  {
    if |es| == 0 then [] else TextFor(es[0], a) + TextsFor(es[1..], a)
  }

  /** Appending entries and reloading yields the lists read at the start followed
      by the new entries in append order: prior entries are preserved verbatim
      whenever the first read succeeds, and an unreadable file loses them. */
  lemma {:induction false} RecordAllAppends(f: AuditFile, es: seq<AuditEntry>)
    requires |es| > 0
    ensures WellFormed(RecordAll(f, es))
    ensures Load(RecordAll(f, es)) == Lists(Load(f).archived + TextsFor(es, Archive), Load(f).deleted + TextsFor(es, Delete))
    decreases |es|
  {
    var g := Record(f, es[0]);
    RecordLoads(f, es[0]);
    if |es| == 1 {
      assert RecordAll(f, es) == g;
      assert TextsFor(es, Archive) == TextFor(es[0], Archive);
      assert TextsFor(es, Delete) == TextFor(es[0], Delete);
    } else {
      RecordAllAppends(g, es[1..]);
      assert RecordAll(f, es) == RecordAll(g, es[1..]);
      AppendFirst(Load(f).archived, es, Archive);
      AppendFirst(Load(f).deleted, es, Delete);
    }
  }

  lemma AppendFirst(prior: seq<string>, es: seq<AuditEntry>, a: Action)
    requires |es| > 0
    ensures (prior + TextFor(es[0], a)) + TextsFor(es[1..], a) == prior + TextsFor(es, a)
  {
    assert TextsFor(es, a) == TextFor(es[0], a) + TextsFor(es[1..], a);
  }
}
