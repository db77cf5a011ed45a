/** The dataset catalog: `list_tables`, which turns the directory listing
    into dataset names, and `register_resources`, which registers one
    read-only resource per dataset file at start-up. */
module Catalog {
  import opened Results
  import opened Text
  import opened Seqs
  import opened Paths

  /** What the data directory looks like to the server: absent
      (`os.path.exists` fails), listed by `os.listdir` in listing order, or
      present but unreadable (`os.listdir` raises, with this message). */
  datatype Listing = Absent | Listed(entries: seq<string>) | Unreadable(message: string)

  const LIST_FAILED: string := "Errore: "
  const URI_SCHEME: string := "csv://"
  const READER_PREFIX: string := "read_"

  /** `filename.endswith('.csv')`. */
  predicate IsCsv(f: string)
  {
    EndsWith(f, EXTENSION)
  }

  /** `f.replace('.csv', '')`: every occurrence is deleted, not just the
      trailing extension. */
  function TableName(f: string): (r: string)
    ensures |r| <= |f|
    ensures !Contains(f, EXTENSION) ==> r == f
  {
    Replace(f, EXTENSION, "")
  }

  /** `list_tables()`. */
  function ListTables(dir: Listing): (r: seq<string>)
    ensures dir.Absent? ==> r == []
    ensures dir.Unreadable? ==> r == [LIST_FAILED + dir.message]
    ensures dir.Listed? ==> |r| == |Filter(IsCsv, dir.entries)|
  {
    match dir
    case Absent => []
    case Unreadable(msg) => [LIST_FAILED + msg]
    case Listed(entries) => Map(TableName, Filter(IsCsv, entries))
  }

  /** Listing order is kept: the names of a concatenated listing are the names
      of its parts, concatenated. */
  lemma ListTablesAppend(a: seq<string>, b: seq<string>)
    ensures ListTables(Listed(a + b)) == ListTables(Listed(a)) + ListTables(Listed(b))
  {
    FilterAppend(IsCsv, a, b);
    MapAppend(TableName, Filter(IsCsv, a), Filter(IsCsv, b));
  }

  /** One entry contributes one name when it ends in ".csv", none otherwise. */
  lemma ListTablesSingle(f: string)
    ensures ListTables(Listed([f])) == if IsCsv(f) then [TableName(f)] else []
  {
    assert [f][1..] == [];
  }

  /** When `x` holds no ".csv", the first occurrence in `x + ".csv" + y` is
      the one after `x`: an occurrence cannot start inside `x` and run into
      the ".csv", because no proper prefix of ".csv" is also a suffix of it. */
  lemma {:induction false} DeleteFirstOccurrence(x: string, y: string)
    requires !Contains(x, EXTENSION)
    ensures TableName(x + EXTENSION + y) == x + TableName(y)
    decreases |x|
  {
    var s := x + EXTENSION + y;
    if x == [] {
      assert s[..4] == EXTENSION && s[4..] == y;
    } else {
      assert s[..4] != EXTENSION by {
        if |x| >= 4 {
          assert s[..4] == x[..4];
        } else {
          assert s[|x|] == '.';
          assert EXTENSION[|x|] != '.';
        }
      }
      assert s[1..] == x[1..] + EXTENSION + y;
      DeleteFirstOccurrence(x[1..], y);
    }
  }

  /** A file name whose stem holds no ".csv" lists as its stem. */
  lemma TableNameOfPlainStem(stem: string)
    requires !Contains(stem, EXTENSION)
    ensures TableName(stem + EXTENSION) == stem
  {
    DeleteFirstOccurrence(stem, "");
    assert stem + EXTENSION + "" == stem + EXTENSION;
  }

  /** For such a file the listed name resolves back to the file itself. */
  lemma ListedNameResolves(dataDir: Path, stem: string)
    requires !Contains(stem, EXTENSION)
    ensures GetCsvPath(dataDir, TableName(stem + EXTENSION)) == Join(dataDir, stem + EXTENSION)
  {
    TableNameOfPlainStem(stem);
    if EndsWith(stem, EXTENSION) {
      EndsWithContains(stem, EXTENSION);
    }
  }

  /** Deleting every occurrence: "a.csv.csv" lists as "a". */
  lemma EveryOccurrenceDeleted()
    ensures TableName("a.csv.csv") == "a"
  {
    var f := "a.csv.csv";
    assert f[..4] != EXTENSION by { assert f[..4][0] == 'a'; }
    assert f[1..] == ".csv.csv" && f[1..][..4] == EXTENSION && f[1..][4..] == ".csv";
    assert ".csv"[..4] == EXTENSION && ".csv"[4..] == "";
    calc {
      Replace(f, EXTENSION, "");
      [f[0]] + Replace(f[1..], EXTENSION, "");
      "a" + Replace(".csv", EXTENSION, "");
      "a" + Replace("", EXTENSION, "");
    }
  }

  /** Deleting can join two pieces into a new occurrence: "a.cs.csvv.csv"
      lists as "a.csv", a name that itself ends in ".csv". */
  lemma DeletionCanCreateOccurrence()
    ensures TableName("a.cs.csvv.csv") == "a.csv"
  {
    var x, v := "a.cs", "v";
    assert !StartsWith(x, EXTENSION) by { assert x[..4][0] == 'a'; }
    assert !Contains(x, EXTENSION) by { assert !Contains(x[1..], EXTENSION); }
    assert !Contains(v, EXTENSION);
    DeleteFirstOccurrence(v, "");
    DeleteFirstOccurrence(x, v + EXTENSION + "");
    assert x + EXTENSION + (v + EXTENSION + "") == "a.cs.csvv.csv";
    assert x + (v + "") == "a.csv";
  }

  /** The name `list_tables` gives for "a.csv.csv" does not resolve back to
      that file: `get_csv_path("a")` names "a.csv". */
  lemma ListedNameMisresolves(dataDir: Path)
    ensures ListTables(Listed(["a.csv.csv"])) == ["a"]
    ensures GetCsvPath(dataDir, "a") != Join(dataDir, "a.csv.csv")
  {
    ListTablesSingle("a.csv.csv");
    assert IsCsv("a.csv.csv") by { assert "a.csv.csv"[5..] == EXTENSION; }
    EveryOccurrenceDeleted();
    assert !EndsWith("a", EXTENSION);
    assert CanonicalFileName("a") == "a.csv";
    assert |Join(dataDir, "a.csv")| != |Join(dataDir, "a.csv.csv")| by {
      assert !StartsWith("a.csv", "/") && !StartsWith("a.csv.csv", "/");
    }
  }

  /** The logical name of a dataset file that resolves back to it: the
      trailing ".csv" removed, unless the rest still ends in ".csv" (then
      `get_csv_path` would not add the extension back, so the full name is
      kept). */
  function LogicalName(f: string): (r: string)
    ensures IsCsv(f) ==> CanonicalFileName(r) == f
  {
    if IsCsv(f) && !IsCsv(f[..|f| - 4]) then
      assert f == f[..|f| - 4] + EXTENSION;
      f[..|f| - 4]
    else f
  }

  /** `list_tables` with names that resolve back to their files. */
  function ListTablesResolvable(dir: Listing): (r: seq<string>)
    ensures dir.Absent? ==> r == []
    ensures dir.Unreadable? ==> r == [LIST_FAILED + dir.message]
    ensures dir.Listed? ==> |r| == |Filter(IsCsv, dir.entries)|
  {
    match dir
    case Absent => []
    case Unreadable(msg) => [LIST_FAILED + msg]
    case Listed(entries) => Map(LogicalName, Filter(IsCsv, entries))
  }

  /** Every listed name resolves, through `get_csv_path`, to its own file. */
  lemma ResolvableRoundTrip(dataDir: Path, entries: seq<string>)
    ensures var names := ListTablesResolvable(Listed(entries));
      var files := Filter(IsCsv, entries);
      forall k :: 0 <= k < |names| ==> GetCsvPath(dataDir, names[k]) == Join(dataDir, files[k])
  {
    var files := Filter(IsCsv, entries);
    assert forall k :: 0 <= k < |files| ==> IsCsv(files[k]) by {
      forall k | 0 <= k < |files|
        ensures IsCsv(files[k])
      {
        assert files[k] in files;
      }
    }
  }

  /** The corrected names agree with `list_tables` wherever the stem holds no
      ".csv". */
  lemma ResolvableAgrees(stem: string)
    requires !Contains(stem, EXTENSION)
    ensures LogicalName(stem + EXTENSION) == TableName(stem + EXTENSION) == stem
  {
    TableNameOfPlainStem(stem);
    var f := stem + EXTENSION;
    assert f[..|f| - 4] == stem;
    if EndsWith(stem, EXTENSION) {
      EndsWithContains(stem, EXTENSION);
    }
    assert IsCsv(f) by { assert f[|f| - 4..] == EXTENSION; }
  }

  // ---- Resources ----

  /** A reader: the function registered for one resource, with its
      `__name__` and the path it opens when called. */
  datatype Reader = Reader(name: string, path: Path)

  datatype Resource = Resource(uri: string, reader: Reader)

  /** `make_reader(p)`: a reader bound to `p`, itself named "<lambda>". */
  function MakeReader(p: Path): (r: Reader)
    ensures r.path == p
  {
    Reader("<lambda>", p)
  }

  /** `filename.replace(".", "_").replace("-", "_")`. */
  function CleanName(f: string): (r: string)
    ensures |r| == |f|
    ensures forall i :: 0 <= i < |f| ==> r[i] == if f[i] == '.' || f[i] == '-' then '_' else f[i]
  {
    ReplaceCharPointwise(f, '.', '_');
    ReplaceCharPointwise(Replace(f, ".", "_"), '-', '_');
    Replace(Replace(f, ".", "_"), "-", "_")
  }

  lemma CleanNameSafe(f: string)
    ensures '.' !in CleanName(f) && '-' !in CleanName(f)
  {
  }

  /** Cleaning is not injective: two files can get the same reader name. */
  lemma CleanNameCollides(f: string, g: string)
    requires f == "a-b.csv" && g == "a.b.csv"
    ensures f != g && CleanName(f) == CleanName(g)
  {
    assert f[1] != g[1];
    var x, y := CleanName(f), CleanName(g);
    forall i | 0 <= i < 7
      ensures x[i] == y[i]
    {
    }
  }

  /** One character of a reader name that keeps file names apart: '_' is
      doubled, '.' becomes "_d" and '-' becomes "_h". */
  function EscapeChar(c: char): string
  {
    if c == '_' then "__" else if c == '.' then "_d" else if c == '-' then "_h" else [c]
  }

  /** A reader-name form of a file name that, unlike `CleanName`, is
      injective, and still holds no '.' or '-'. */
  function SafeName(f: string): (r: string)
    ensures '.' !in r && '-' !in r
  {
    if f == [] then [] else EscapeChar(f[0]) + SafeName(f[1..])
  }

  function UnescapeChar(c: char): char
  {
    if c == 'd' then '.' else if c == 'h' then '-' else '_'
  }

  /** The inverse of `SafeName`. */
  function Unescape(s: string): string
  {
    if s == [] then []
    else if s[0] == '_' && |s| >= 2 then [UnescapeChar(s[1])] + Unescape(s[2..])
    else [s[0]] + Unescape(s[1..])
  }

  lemma {:induction false} SafeNameRoundTrip(f: string)
    ensures Unescape(SafeName(f)) == f
  {
    if f != [] {
      SafeNameRoundTrip(f[1..]);
      var e, rest := EscapeChar(f[0]), SafeName(f[1..]);
      var s := e + rest;
      if |e| == 2 {
        assert s[0] == '_' && s[1] == e[1] && s[2..] == rest;
      } else {
        assert s[0] == f[0] && s[1..] == rest;
      }
    }
  }

  /** Distinct file names get distinct safe names. */
  lemma SafeNameInjective(f: string, g: string)
    requires SafeName(f) == SafeName(g)
    ensures f == g
  {
    SafeNameRoundTrip(f);
    SafeNameRoundTrip(g);
  }

  /** The file names that collide under `CleanName` stay apart. */
  lemma SafeNameSeparates()
    ensures SafeName("a-b.csv") != SafeName("a.b.csv")
  {
    if SafeName("a-b.csv") == SafeName("a.b.csv") {
      SafeNameInjective("a-b.csv", "a.b.csv");
    }
  }

  /** The resource registered for dataset file `f`. */
  function Describe(dataDir: Path, f: string): Resource
  {
    Resource(URI_SCHEME + f, Reader(READER_PREFIX + CleanName(f), Join(dataDir, f)))
  }

  function DescribeIn(dataDir: Path): string -> Resource
  {
    f => Describe(dataDir, f)
  }

  /** The resources a scan of `entries` registers, in listing order. */
  function Registrations(dataDir: Path, entries: seq<string>): seq<Resource>
  {
    Map(DescribeIn(dataDir), Filter(IsCsv, entries))
  }

  /** One resource per ".csv" entry, in listing order: its URI is "csv://"
      and the file name, its reader is named after the cleaned file name and
      opens that same file under the data directory. */
  lemma RegistrationsSpec(dataDir: Path, entries: seq<string>)
    ensures var rs, files := Registrations(dataDir, entries), Filter(IsCsv, entries);
      && |rs| == |files|
      && forall k :: 0 <= k < |rs| ==>
           && rs[k].uri == URI_SCHEME + files[k]
           && rs[k].reader.name == READER_PREFIX + CleanName(files[k])
           && rs[k].reader.path == Join(dataDir, files[k])
  {
  }

  /** The first registered resource with the given URI. */
  function Lookup(rs: seq<Resource>, uri: string): (r: Option<Resource>)
    ensures r.Some? ==> r.value in rs && r.value.uri == uri
    ensures r.None? <==> forall k :: 0 <= k < |rs| ==> rs[k].uri != uri
  {
    if rs == [] then None
    else if rs[0].uri == uri then Some(rs[0])
    else Lookup(rs[1..], uri)
  }

  /** Calling a reader: the current text of the file it is bound to, or
      `None` when opening it fails. */
  function Invoke(reader: Reader, contents: map<Path, string>): Option<string>
  {
    if reader.path in contents then Some(contents[reader.path]) else None
  }

  /** Fetching "csv://" + f returns the resource registered for f, whose reader
      opens f's own path, not that of another file of the scan. */
  lemma {:induction false} FetchReadsOwnFile(dataDir: Path, entries: seq<string>, f: string, contents: map<Path, string>)
    requires f in entries && IsCsv(f)
    ensures Lookup(Registrations(dataDir, entries), URI_SCHEME + f) == Some(Describe(dataDir, f))
    ensures Invoke(Describe(dataDir, f).reader, contents) ==
            if Join(dataDir, f) in contents then Some(contents[Join(dataDir, f)]) else None
    decreases |entries|
  {
    var e, rest := entries[0], entries[1..];
    assert entries == [e] + rest;
    ListAppendRegistrations(dataDir, [e], rest);
    SingleRegistration(dataDir, e);
    var rs, uri := Registrations(dataDir, entries), URI_SCHEME + f;
    if e == f {
      assert rs[0] == Describe(dataDir, f);
    } else {
      assert f in rest;
      FetchReadsOwnFile(dataDir, rest, f, contents);
      if IsCsv(e) {
        assert Describe(dataDir, e).uri != uri by {
          assert (URI_SCHEME + e)[6..] == e && (URI_SCHEME + f)[6..] == f;
        }
        assert rs[1..] == Registrations(dataDir, rest);
      } else {
        assert rs == Registrations(dataDir, rest);
      }
    }
  }

  /** What one more pass of the registration loop adds to what the earlier
      passes registered. */
  lemma ScanStep(before: seq<Resource>, dataDir: Path, entries: seq<string>, i: nat)
    requires i < |entries|
    ensures before + Registrations(dataDir, entries[..i]) + Registrations(dataDir, [entries[i]]) ==
            before + Registrations(dataDir, entries[..i + 1])
  {
    assert entries[..i + 1] == entries[..i] + [entries[i]];
    ListAppendRegistrations(dataDir, entries[..i], [entries[i]]);
  }

  lemma SingleRegistration(dataDir: Path, f: string)
    ensures Registrations(dataDir, [f]) == if IsCsv(f) then [Describe(dataDir, f)] else []
  {
    assert [f][1..] == [];
  }

  lemma ListAppendRegistrations(dataDir: Path, a: seq<string>, b: seq<string>)
    ensures Registrations(dataDir, a + b) == Registrations(dataDir, a) + Registrations(dataDir, b)
  {
    FilterAppend(IsCsv, a, b);
    MapAppend(DescribeIn(dataDir), Filter(IsCsv, a), Filter(IsCsv, b));
  }

  /** Directory entries are distinct names, so the URIs registered are
      distinct. */
  lemma UrisDistinct(dataDir: Path, entries: seq<string>)
    requires Distinct(entries)
    ensures var rs := Registrations(dataDir, entries);
      forall i, k :: 0 <= i < k < |rs| ==> rs[i].uri != rs[k].uri
  {
    var files := Filter(IsCsv, entries);
    FilterDistinct(IsCsv, entries);
    var rs := Registrations(dataDir, entries);
    forall i, k | 0 <= i < k < |rs|
      ensures rs[i].uri != rs[k].uri
    {
      assert (URI_SCHEME + files[i])[6..] == files[i];
      assert (URI_SCHEME + files[k])[6..] == files[k];
    }
  }

  /** Reader names need not be distinct: "a-b.csv" and "a.b.csv" register two
      resources with different URIs and the same reader name. */
  lemma ReaderNamesCollide(dataDir: Path)
    ensures var rs := Registrations(dataDir, ["a-b.csv", "a.b.csv"]);
      && |rs| == 2
      && rs[0].uri != rs[1].uri
      && rs[0].reader.name == rs[1].reader.name
  {
    var a, b := "a-b.csv", "a.b.csv";
    assert IsCsv(a) by { assert a[3..] == EXTENSION; }
    assert IsCsv(b) by { assert b[3..] == EXTENSION; }
    var s := [a, b];
    assert s[1..] == [b] && [b][1..] == s[2..];
    assert Filter(IsCsv, s) == [a, b];
    CleanNameCollides(a, b);
    assert (URI_SCHEME + a)[7] != (URI_SCHEME + b)[7];
  }

  /** The MCP server as far as resources go: the registrations it has
      received, in order. */
  class Server {
    var resources: seq<Resource>

    constructor ()
      ensures resources == []
    {
      resources := [];
    }

    /** `mcp.resource(uri)(reader)`. */
    method AddResource(uri: string, reader: Reader)
      modifies this
      ensures resources == old(resources) + [Resource(uri, reader)]
    {
      resources := resources + [Resource(uri, reader)];
    }

    /** The body of the registration loop for one ".csv" entry. */
    method RegisterFile(dataDir: Path, filename: string)
      requires IsCsv(filename)
      modifies this
      ensures resources == old(resources) + [Describe(dataDir, filename)]
    {
      var uri := URI_SCHEME + filename;
      var fullPath := Join(dataDir, filename);
      var reader := MakeReader(fullPath);
      var cleanName := CleanName(filename);
      reader := reader.(name := READER_PREFIX + cleanName);
      AddResource(uri, reader);
    }

    /** One pass of the registration loop: a ".csv" entry is registered,
        any other entry is skipped. */
    method RegisterEntry(dataDir: Path, filename: string)
      modifies this
      ensures resources == old(resources) + Registrations(dataDir, [filename])
    {
      SingleRegistration(dataDir, filename);
      if IsCsv(filename) {
        RegisterFile(dataDir, filename);
      } else {
        assert resources + [] == resources;
      }
    }

    /** `register_resources()`: nothing is registered when the data directory
        is absent; an unreadable directory raises (returned here as the
        exception's message) before anything is registered; otherwise one
        resource per ".csv" entry is appended, in listing order. */
    method RegisterResources(dataDir: Path, dir: Listing) returns (raised: Option<string>)
      modifies this
      ensures dir.Absent? ==> raised == None && resources == old(resources)
      ensures dir.Unreadable? ==> raised == Some(dir.message) && resources == old(resources)
      ensures dir.Listed? ==> raised == None && resources == old(resources) + Registrations(dataDir, dir.entries)
    {
      if dir.Absent? {
        return None;
      }
      if dir.Unreadable? {
        return Some(dir.message);
      }
      var entries := dir.entries;
      for i := 0 to |entries|
        invariant resources == old(resources) + Registrations(dataDir, entries[..i])
      {
        ScanStep(old(resources), dataDir, entries, i);
        RegisterEntry(dataDir, entries[i]);
      }
      assert entries[..|entries|] == entries;
      return None;
    }
  }
}
