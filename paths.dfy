/** Resolution of a dataset name to a file path: `get_csv_path` and the
    POSIX `os.path.join` it is built on. There is no containment check. */
module Paths {
  import opened Text

  type Path = string

  /** The dataset file extension. */
  const EXTENSION: string := ".csv"

  /** POSIX `os.path.join(base, part)` for two components: an absolute `part`
      replaces `base`; otherwise one separator is inserted unless `base` is
      empty or already ends with one. Nothing is normalised. */
  function Join(base: Path, part: Path): (r: Path)
    ensures EndsWith(r, part)
    ensures !StartsWith(part, "/") ==> StartsWith(r, base)
  {
    if StartsWith(part, "/") then part
    else if base == [] || EndsWith(base, "/") then base + part
    else base + "/" + part
  }

  /** `DATA_DIR = os.path.join(BASE_DIR, "data")`, where `BASE_DIR` is the
      directory holding the server file; it is an input of the model. */
  function DataDir(baseDir: Path): (r: Path)
    ensures EndsWith(r, "data")
    ensures baseDir != [] && !EndsWith(baseDir, "/") ==> r == baseDir + "/data"
  {
    Join(baseDir, "data")
  }

  /** The file name `get_csv_path` derives from a dataset name. */
  function CanonicalFileName(name: string): (r: string)
    ensures EndsWith(r, EXTENSION)
    ensures StartsWith(r, name)
    ensures |r| == |name| || |r| == |name| + |EXTENSION|
    ensures EndsWith(name, EXTENSION) ==> r == name
  {
    if !EndsWith(name, EXTENSION) then name + EXTENSION else name
  }

  /** Without the extension, exactly one extension is appended. */
  lemma AppendsExtensionOnce(name: string)
    requires !EndsWith(name, EXTENSION)
    ensures CanonicalFileName(name) == name + EXTENSION
  {
  }

  lemma CanonicalIdempotent(name: string)
    ensures CanonicalFileName(CanonicalFileName(name)) == CanonicalFileName(name)
  {
  }

  /** The canonical file name is absolute exactly when the dataset name is. */
  lemma CanonicalAbsolute(name: string)
    ensures StartsWith(CanonicalFileName(name), "/") <==> StartsWith(name, "/")
  {
    var r := CanonicalFileName(name);
    if name == [] {
      assert r == EXTENSION;
      assert r[..1] != "/" by { assert r[..1][0] == '.'; }
    } else {
      assert r[..1] == name[..1];
    }
  }

  /** `get_csv_path(table_name)` under data directory `dataDir`. */
  function GetCsvPath(dataDir: Path, tableName: string): (r: Path)
    ensures EndsWith(r, CanonicalFileName(tableName))
    ensures EndsWith(r, EXTENSION)
  {
    Join(dataDir, CanonicalFileName(tableName))
  }

  /** A relative name is appended to the data directory after one separator,
      verbatim: `..` segments are not resolved. */
  lemma ResolveRelative(dataDir: Path, tableName: string)
    requires dataDir != [] && !EndsWith(dataDir, "/")
    requires !StartsWith(tableName, "/")
    ensures GetCsvPath(dataDir, tableName) == dataDir + "/" + CanonicalFileName(tableName)
    ensures StartsWith(GetCsvPath(dataDir, tableName), dataDir + "/")
  {
    CanonicalAbsolute(tableName);
    var r := GetCsvPath(dataDir, tableName);
    assert r[..|dataDir + "/"|] == dataDir + "/";
  }

  /** An absolute name discards the data directory altogether: no check keeps
      the result inside it. */
  lemma ResolveAbsolute(dataDir: Path, tableName: string)
    requires StartsWith(tableName, "/")
    ensures GetCsvPath(dataDir, tableName) == CanonicalFileName(tableName)
  {
    CanonicalAbsolute(tableName);
  }

  /** Parent-directory segments are passed through unresolved: a name
      starting with "../" resolves to a path starting with `dataDir + "/../"`,
      so that, say, "../secret" names "secret.csv" in the parent of the data
      directory. */
  lemma ParentSegmentsPassThrough(dataDir: Path, rest: string)
    requires dataDir != [] && !EndsWith(dataDir, "/")
    ensures StartsWith(GetCsvPath(dataDir, "../" + rest), dataDir + "/../")
  {
    var up := "../";
    var name := up + rest;
    assert StartsWith(name, up) by { assert name[..3] == up; }
    assert !StartsWith(name, "/") by { assert name[..1][0] == '.'; }
    ResolveRelative(dataDir, name);
    StartsWithTrans(CanonicalFileName(name), name, up);
    StartsWithPrepend(dataDir + "/", CanonicalFileName(name), up);
    assert dataDir + "/" + up == dataDir + "/../";
  }

  /** An instance: an absolute name reaches any file, whatever the data directory. */
  lemma AbsoluteNameEscapes(dataDir: Path)
    ensures GetCsvPath(dataDir, "/etc/passwd") == "/etc/passwd.csv"
  {
    var abs := "/etc/passwd";
    assert CanonicalFileName(abs) == abs + EXTENSION by {
      assert abs[|abs| - 4..][0] == 's';
    }
    assert StartsWith(abs, "/") by { assert abs[..1] == [abs[0]]; }
    ResolveAbsolute(dataDir, abs);
  }
}
