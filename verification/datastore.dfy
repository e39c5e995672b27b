/** `get_datastore` (datastore.py): the settings document read from
    `settings.yaml`, with the four keys the rest of the program indexes filled in
    when missing. YAML parsing is replaced by the value it yields. */
module Datastore {

  /** A YAML value: the empty document, a number or boolean (whose value no step
      looks at), a string, a list or a mapping. */
  datatype Value = Null | Scalar | Text(text: string) | Items(items: seq<Value>) | Mapping(entries: map<string, Value>)

  /** What reading the file yields: any failure to open or parse it, or the
      parsed document. */
  datatype SettingsFile = ReadFailed | Parsed(doc: Value)

  /** The settings returned, or the `TypeError` that ends the caller. */
  datatype Loaded = Loaded(doc: Value) | Crashed

  const XviPaths: string := "xvi_paths"
  const OisConfig: string := "ois_config"
  const IgnoreMrns: string := "ignore_mrns"
  const EmailReportsConfig: string := "email_reports_config"

  /** The four keys and the value each gets when missing. */
  const Defaults: map<string, Value> :=
    map[XviPaths := Items([]), OisConfig := Mapping(map[]), IgnoreMrns := Items([]), EmailReportsConfig := Mapping(map[])]

  /** The four `if not key in datastore` steps on a mapping (datastore.py:33-43). */
  function Fill(m: map<string, Value>): (r: map<string, Value>)
    ensures forall k :: k in Defaults ==> k in r
    ensures forall k :: k in m ==> k in r && r[k] == m[k]
    ensures forall k :: k in Defaults && k !in m ==> r[k] == Defaults[k]
    ensures forall k :: k in r ==> k in m || k in Defaults
  {
    var m1 := if XviPaths in m then m else m[XviPaths := Items([])];
    var m2 := if OisConfig in m1 then m1 else m1[OisConfig := Mapping(map[])];
    var m3 := if IgnoreMrns in m2 then m2 else m2[IgnoreMrns := Items([])];
    if EmailReportsConfig in m3 then m3 else m3[EmailReportsConfig := Mapping(map[])]
  }

  /** Filling twice is filling once. */
  lemma FillIdempotent(m: map<string, Value>)
    ensures Fill(Fill(m)) == Fill(m)
  {
  }

  /** `key in doc` for a document that is not a mapping: a substring test on a
      string, a membership test on a list. */
  predicate Mentions(doc: Value, key: string)
    requires doc.Text? || doc.Items?
  {
    if doc.Text? then Occurs(key, doc.text) else Text(key) in doc.items
  }

  /** `key` is a substring of `s`. */
  predicate Occurs(key: string, s: string)
    decreases |s|
  {
    key <= s || (|s| > 0 && Occurs(key, s[1..]))
  }

  /** `get_datastore` as written (datastore.py:25-45). A read failure starts from
      an empty mapping. An empty document is `None`, and `in` on `None`, a number
      or a boolean raises. A string or list passes the tests only when it mentions every key; otherwise
      the first item assignment on it raises. */
  function GetDatastoreAsWritten(f: SettingsFile): (r: Loaded)
    ensures f.ReadFailed? ==> r == Loaded(Mapping(Defaults))
    ensures f.Parsed? && f.doc.Mapping? ==> r == Loaded(Mapping(Fill(f.doc.entries)))
    ensures f == Parsed(Null) || f == Parsed(Scalar) ==> r == Crashed
  {
    match f
    case ReadFailed => Loaded(Mapping(Fill(map[])))
    case Parsed(doc) =>
      match doc
      case Null => Crashed
      case Scalar => Crashed
      case Mapping(m) => Loaded(Mapping(Fill(m)))
      case _ =>
        if Mentions(doc, XviPaths) && Mentions(doc, OisConfig) && Mentions(doc, IgnoreMrns)
           && Mentions(doc, EmailReportsConfig)
        then Loaded(doc)
        else Crashed
  }

  /** An empty settings file, as left by an interrupted `set_datastore`, makes
      every caller of the as-written reader raise. */
  lemma EmptyFileCrashes()
    ensures GetDatastoreAsWritten(Parsed(Null)) == Crashed
    ensures GetDatastoreAsWritten(ReadFailed) != Crashed
  {
  }

  /** `get_datastore` treating an empty document like a missing file. */
  function GetDatastore(f: SettingsFile): (r: Loaded)
    ensures f.ReadFailed? || f == Parsed(Null) ==> r == Loaded(Mapping(Defaults))
    ensures f.Parsed? && f.doc.Mapping? ==> r == Loaded(Mapping(Fill(f.doc.entries)))
  {
    if f == Parsed(Null) then GetDatastoreAsWritten(ReadFailed) else GetDatastoreAsWritten(f)
  }

  /** The corrected reader differs from the original only on the empty document,
      where it returns the defaults instead of raising. */
  lemma GetDatastoreAgrees(f: SettingsFile)
    ensures f != Parsed(Null) ==> GetDatastore(f) == GetDatastoreAsWritten(f)
    ensures GetDatastore(Parsed(Null)) == GetDatastore(ReadFailed)
  {
  }

  /** Whatever mapping the file holds, the settings returned are a mapping that
      carries the four keys, and saving those settings and reading them back
      changes nothing. */
  lemma GetDatastoreFills(f: SettingsFile)
    requires f.ReadFailed? || f == Parsed(Null) || (f.Parsed? && f.doc.Mapping?)
    ensures var r := GetDatastore(f);
            && r.Loaded? && r.doc.Mapping?
            && (forall k :: k in Defaults ==> k in r.doc.entries)
            && GetDatastore(Parsed(r.doc)) == r
  {
    var r := GetDatastore(f);
    if f.ReadFailed? || f == Parsed(Null) {
      FillIdempotent(map[]);
    } else {
      FillIdempotent(f.doc.entries);
    }
  }
}
