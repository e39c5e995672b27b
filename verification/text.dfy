/** String helpers with the meaning the scanner and the executor rely on:
    Python's `str.split` on one separator character, `str.join`,
    ASCII `str.lower` and `os.path.join` on a Windows host. */
module Text {

  /** ASCII lower-casing of one character (Python 2 byte-string `lower`). */
  function LowerChar(c: char): char {
    if 'A' <= c <= 'Z' then (c as int - 'A' as int + 'a' as int) as char else c
  }

  function Lower(s: string): (r: string)
    ensures |r| == |s|
    ensures forall i :: 0 <= i < |s| ==> r[i] == LowerChar(s[i])
  {
    seq(|s|, i requires 0 <= i < |s| => LowerChar(s[i]))
  }

  /** `s.split(sep)`: never empty, and no part contains the separator. */
  function Split(s: string, sep: char): (parts: seq<string>)
    ensures |parts| >= 1
    ensures forall i :: 0 <= i < |parts| ==> sep !in parts[i]
    decreases |s|
  {
    if |s| == 0 then [""]
    else
      var rest := Split(s[1..], sep);
      if s[0] == sep then [""] + rest
      else [[s[0]] + rest[0]] + rest[1..]
  }

  /** `sep.join(parts)`. */
  function JoinWith(parts: seq<string>, sep: string): string
    decreases |parts|
  {
    if |parts| == 0 then ""
    else if |parts| == 1 then parts[0]
    else parts[0] + sep + JoinWith(parts[1..], sep)
  }

  /** Splitting then joining with the same separator gives the string back. */
  lemma {:induction false} JoinSplit(s: string, sep: char)
    ensures JoinWith(Split(s, sep), [sep]) == s
    decreases |s|
  {
    if |s| > 0 {
      var rest := Split(s[1..], sep);
      JoinSplit(s[1..], sep);
      if s[0] == sep {
        assert Split(s, sep) == [""] + rest;
        assert ([""] + rest)[1..] == rest;
        assert s == [sep] + s[1..];
      } else {
        var parts := Split(s, sep);
        assert parts == [[s[0]] + rest[0]] + rest[1..];
        if |rest| == 1 {
          assert s == [s[0]] + s[1..];
        } else {
          assert parts[1..] == rest[1..];
          assert s == [s[0]] + s[1..];
        }
      }
    }
  }

  lemma {:induction false} SplitWithoutSep(a: string, sep: char)
    requires sep !in a
    ensures Split(a, sep) == [a]
    decreases |a|
  {
    if |a| > 0 {
      SplitWithoutSep(a[1..], sep);
      assert a == [a[0]] + a[1..];
    }
  }

  /** A separator-free prefix followed by the separator becomes the first part. */
  lemma {:induction false} SplitAfterPrefix(a: string, sep: char, b: string)
    requires sep !in a
    ensures Split(a + [sep] + b, sep) == [a] + Split(b, sep)
    decreases |a|
  {
    var s := a + [sep] + b;
    if |a| == 0 {
      assert s[1..] == b;
    } else {
      assert s[1..] == a[1..] + [sep] + b;
      SplitAfterPrefix(a[1..], sep, b);
      assert a == [a[0]] + a[1..];
    }
  }

  /** Joining separator-free parts and splitting again gives the parts back. */
  lemma {:induction false} SplitJoin(parts: seq<string>, sep: char)
    requires |parts| >= 1
    requires forall i :: 0 <= i < |parts| ==> sep !in parts[i]
    ensures Split(JoinWith(parts, [sep]), sep) == parts
    decreases |parts|
  {
    if |parts| == 1 {
      SplitWithoutSep(parts[0], sep);
    } else {
      SplitJoin(parts[1..], sep);
      SplitAfterPrefix(parts[0], sep, JoinWith(parts[1..], [sep]));
      assert [parts[0]] + parts[1..] == parts;
    }
  }

  /** The directory separator of the Windows host the tool runs on. */
  const PathSep: char := '\\'

  predicate EndsWithSep(p: string) {
    |p| > 0 && (p[|p| - 1] == '\\' || p[|p| - 1] == '/')
  }

  /** A bare drive such as `E:`: `splitdrive` takes all of it as the drive and
      leaves an empty path, so nothing is inserted after it. */
  predicate DriveOnly(p: string) {
    |p| == 2 && p[1] == ':'
  }

  /** `os.path.join(dir, name)` (Python 2.7 `ntpath.join`) for a relative `name`
      without a drive: a separator is inserted unless `dir` is empty, already
      ends with one, or is a bare drive. */
  function PathJoin(dir: string, name: string): (r: string)
    ensures |r| == |dir| + |name| || (|r| == |dir| + 1 + |name| && r[|dir|] == PathSep)
    ensures dir <= r && r[|r| - |name|..] == name
  {
    if |dir| == 0 || EndsWithSep(dir) || DriveOnly(dir) then
      assert (dir + name)[|dir|..] == name;
      dir + name
    else
      assert (dir + [PathSep] + name)[|dir| + 1..] == name;
      dir + [PathSep] + name
  }

  /** When the separator is inserted: exactly when `dir` is non-empty, does not
      end with a separator and is not a bare drive. */
  lemma PathJoinSeparator(dir: string, name: string)
    ensures PathJoin(dir, name) == dir + name <==> |dir| == 0 || EndsWithSep(dir) || DriveOnly(dir)
    ensures PathJoin(dir, name) != dir + name ==> PathJoin(dir, name) == dir + [PathSep] + name
  {
    if !(|dir| == 0 || EndsWithSep(dir) || DriveOnly(dir)) {
      assert |PathJoin(dir, name)| != |dir + name|;
    }
  }

  /** Within one directory, distinct names give distinct paths. */
  lemma PathJoinSameDir(dir: string, a: string, b: string)
    ensures PathJoin(dir, a) == PathJoin(dir, b) <==> a == b
  {
    if PathJoin(dir, a) == PathJoin(dir, b) {
      var prefix := if |dir| == 0 || EndsWithSep(dir) || DriveOnly(dir) then dir else dir + [PathSep];
      assert PathJoin(dir, a) == prefix + a && PathJoin(dir, b) == prefix + b;
      assert a == (prefix + a)[|prefix|..];
      assert b == (prefix + b)[|prefix|..];
    }
  }
}
