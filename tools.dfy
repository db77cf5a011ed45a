/** The query tools `get_schema`, `query_data` and `search_in_table`. Each
    resolves the dataset name, checks that the file exists, has the table
    parsed, and turns every failure into a returned value. A reply is either a
    message or rows; rendering rows as Markdown is not modelled. */
module Tools {
  import opened Results
  import opened Seqs
  import opened Paths
  import opened Tables

  /** The files the tools can see: the paths for which `os.path.exists`
      holds, each with what `pd.read_csv` makes of it, a table or the text of
      the exception it raises. */
  datatype Disk = Disk(files: map<Path, Result<Table>>)

  datatype Reply = Message(text: string) | Rows(header: seq<string>, rows: seq<Row>)

  const SCHEMA_FILE_NOT_FOUND: string := "File non trovato"
  const QUERY_FILE_NOT_FOUND: string := "Errore: File non trovato"
  const QUERY_FAILED: string := "Errore: "
  const TABLE_NOT_FOUND: string := "Errore: Tabella non trovata."
  const SEARCH_FAILED: string := "Errore ricerca: "
  const NO_RESULTS: string := "Nessun risultato."

  function ColumnNotFound(column: string): string
  {
    "Errore: Colonna '" + column + "' non trovata."
  }

  /** `get_schema(table_name)`: a missing file and a parser failure both come
      back as a one-entry dictionary under the key "error"; otherwise the
      column-to-type dictionary of the table. */
  function GetSchema(disk: Disk, dataDir: Path, tableName: string): (r: map<string, string>)
    ensures var path := GetCsvPath(dataDir, tableName);
      && (path !in disk.files ==> r == map["error" := SCHEMA_FILE_NOT_FOUND])
      && (path in disk.files && disk.files[path].Err? ==> r == map["error" := disk.files[path].message])
      && (path in disk.files && disk.files[path].Ok? ==> r.Keys == NameSet(disk.files[path].value.columns))
  {
    var path := GetCsvPath(dataDir, tableName);
    if path !in disk.files then map["error" := SCHEMA_FILE_NOT_FOUND]
    else match disk.files[path]
      case Err(e) => map["error" := e]
      case Ok(t) => Schema(t.columns)
  }

  /** On a parsed table with distinct column names, one entry per column,
      holding that column's inferred type. */
  lemma SchemaPerColumn(disk: Disk, dataDir: Path, tableName: string)
    requires GetCsvPath(dataDir, tableName) in disk.files
    requires disk.files[GetCsvPath(dataDir, tableName)].Ok?
    requires DistinctNames(disk.files[GetCsvPath(dataDir, tableName)].value.columns)
    ensures var cols := disk.files[GetCsvPath(dataDir, tableName)].value.columns;
      && |GetSchema(disk, dataDir, tableName)| == |cols|
      && forall i :: 0 <= i < |cols| ==> GetSchema(disk, dataDir, tableName)[cols[i].name] == cols[i].dtype
  {
    SchemaOfDistinct(disk.files[GetCsvPath(dataDir, tableName)].value.columns);
  }

  /** The caller cannot tell errors from data by the keys: a table whose only
      column is called "error" yields a dictionary with exactly the key set of
      a missing file's, the two differing only in the value under "error". */
  lemma SchemaErrorIsAmbiguous(dataDir: Path, tableName: string)
    ensures var path := GetCsvPath(dataDir, tableName);
      var parsed := GetSchema(Disk(map[path := Ok(Table([Column("error", "int64")], []))]), dataDir, tableName);
      var missing := GetSchema(Disk(map[]), dataDir, tableName);
      && parsed.Keys == missing.Keys == {"error"}
      && parsed["error"] == "int64" != missing["error"]
  {
    ParsedErrorColumn(dataDir, tableName);
    assert "int64"[0] != SCHEMA_FILE_NOT_FOUND[0];
  }

  lemma ParsedErrorColumn(dataDir: Path, tableName: string)
    ensures var path := GetCsvPath(dataDir, tableName);
      GetSchema(Disk(map[path := Ok(Table([Column("error", "int64")], []))]), dataDir, tableName)
      == map["error" := "int64"]
  {
    SingleColumnSchema("error", "int64");
  }

  lemma SingleColumnSchema(name: string, dtype: string)
    ensures Schema([Column(name, dtype)]) == map[name := dtype]
  {
    var cols := [Column(name, dtype)];
    assert cols[..0] == [];
  }

  /** `query_data(table_name, limit)`: the first `limit` rows in file order
      (`df.head(limit)`), after the existence check and the parse. */
  function QueryData(disk: Disk, dataDir: Path, tableName: string, limit: int): (r: Reply)
    ensures var path := GetCsvPath(dataDir, tableName);
      && (path !in disk.files ==> r == Message(QUERY_FILE_NOT_FOUND))
      && (path in disk.files && disk.files[path].Err? ==> r == Message(QUERY_FAILED + disk.files[path].message))
      && (r.Rows? <==> path in disk.files && disk.files[path].Ok?)
      && (r.Rows? ==> var t := disk.files[path].value;
            && r.header == ColumnNames(t)
            && |r.rows| <= |t.rows| && r.rows == t.rows[..|r.rows|]
            && (limit >= 0 ==> |r.rows| == if limit <= |t.rows| then limit else |t.rows|))
  {
    var path := GetCsvPath(dataDir, tableName);
    if path !in disk.files then Message(QUERY_FILE_NOT_FOUND)
    else match disk.files[path]
      case Err(e) => Message(QUERY_FAILED + e)
      case Ok(t) => Rows(ColumnNames(t), Head(t.rows, limit))
  }

  /** `query_data`'s default limit. */
  const DEFAULT_LIMIT: int := 5

  /** `query_data(table_name)` with the limit left out: at most five rows. */
  function QueryDataDefault(disk: Disk, dataDir: Path, tableName: string): (r: Reply)
    ensures var path := GetCsvPath(dataDir, tableName);
      r.Rows? ==> && path in disk.files && disk.files[path].Ok?
                  && var t := disk.files[path].value;
                     r.rows == t.rows[..if |t.rows| <= DEFAULT_LIMIT then |t.rows| else DEFAULT_LIMIT]
  {
    QueryData(disk, dataDir, tableName, DEFAULT_LIMIT)
  }

  /** A parser failure whose text is "File non trovato" is reported exactly
      like a missing file. */
  lemma QueryErrorIsAmbiguous(dataDir: Path, tableName: string, limit: int)
    ensures var path := GetCsvPath(dataDir, tableName);
      QueryData(Disk(map[path := Err(SCHEMA_FILE_NOT_FOUND)]), dataDir, tableName, limit)
      == QueryData(Disk(map[]), dataDir, tableName, limit)
  {
    FailedNotFoundText();
  }

  lemma FailedNotFoundText()
    ensures QUERY_FAILED + SCHEMA_FILE_NOT_FOUND == QUERY_FILE_NOT_FOUND
  {
  }

  /** `search_in_table(table_name, column, value)`: existence of the file is
      checked first, then the parse, then the column; the matching rows are
      returned in file order, and an empty match is its own message. */
  function SearchInTable(disk: Disk, dataDir: Path, tableName: string, column: string, value: string): (r: Reply)
    ensures var path := GetCsvPath(dataDir, tableName);
      && (path !in disk.files ==> r == Message(TABLE_NOT_FOUND))
      && (path in disk.files && disk.files[path].Err? ==> r == Message(SEARCH_FAILED + disk.files[path].message))
      && (path in disk.files && disk.files[path].Ok? && ColumnIndex(disk.files[path].value.columns, column).None? ==>
            r == Message(ColumnNotFound(column)))
      && (r.Rows? ==>
            && path in disk.files && disk.files[path].Ok? && r.rows != []
            && r.header == ColumnNames(disk.files[path].value))
  {
    var path := GetCsvPath(dataDir, tableName);
    if path !in disk.files then Message(TABLE_NOT_FOUND)
    else match disk.files[path]
      case Err(e) => Message(SEARCH_FAILED + e)
      case Ok(t) =>
        match ColumnIndex(t.columns, column)
        case None => Message(ColumnNotFound(column))
        case Some(j) =>
          var found := Select(t, j, value);
          if found == [] then Message(NO_RESULTS) else Rows(ColumnNames(t), found)
  }

  /** The four messages cannot be confused with each other. */
  lemma MessagesDistinct(column: string, e: string)
    ensures TABLE_NOT_FOUND != ColumnNotFound(column)
    ensures TABLE_NOT_FOUND != SEARCH_FAILED + e && ColumnNotFound(column) != SEARCH_FAILED + e
    ensures NO_RESULTS != TABLE_NOT_FOUND && NO_RESULTS != ColumnNotFound(column) && NO_RESULTS != SEARCH_FAILED + e
  {
    var c, f := ColumnNotFound(column), SEARCH_FAILED + e;
    assert c[6] == ':' && c[8] == 'C' && c[0] == 'E';
    assert f[6] == ' ' && f[0] == 'E';
    assert TABLE_NOT_FOUND[6] == ':' && TABLE_NOT_FOUND[8] == 'T' && NO_RESULTS[0] == 'N';
  }

  /** Error precedence of the search, each outcome with exactly the
      condition that produces it: missing file, then parser failure, then
      missing column, then no matching row; otherwise the matching rows. */
  lemma SearchOutcomes(disk: Disk, dataDir: Path, tableName: string, column: string, value: string)
    ensures var path := GetCsvPath(dataDir, tableName);
      var r := SearchInTable(disk, dataDir, tableName, column, value);
      var parsed := path in disk.files && disk.files[path].Ok?;
      && (r == Message(TABLE_NOT_FOUND) <==> path !in disk.files)
      && (path in disk.files && disk.files[path].Err? ==> r == Message(SEARCH_FAILED + disk.files[path].message))
      && (r == Message(ColumnNotFound(column)) <==>
            parsed && column !in NameSet(disk.files[path].value.columns))
      && (r == Message(NO_RESULTS) <==>
            parsed && column in NameSet(disk.files[path].value.columns) &&
            Select(disk.files[path].value, ColumnIndex(disk.files[path].value.columns, column).value, value) == [])
      && (r.Rows? <==>
            parsed && column in NameSet(disk.files[path].value.columns) &&
            Select(disk.files[path].value, ColumnIndex(disk.files[path].value.columns, column).value, value) != [])
  {
    var path := GetCsvPath(dataDir, tableName);
    if path in disk.files {
      MessagesDistinct(column, if disk.files[path].Err? then disk.files[path].message else "");
      if disk.files[path].Ok? {
        var cols := disk.files[path].value.columns;
        ColumnInNames(cols, column);
      }
    } else {
      MessagesDistinct(column, "");
    }
  }

  lemma ColumnInNames(cols: seq<Column>, name: string)
    ensures name in NameSet(cols) <==> ColumnIndex(cols, name).Some?
  {
    if name in NameSet(cols) {
      var c :| c in cols && c.name == name;
      var i :| 0 <= i < |cols| && cols[i] == c;
    }
  }

  /** A successful search returns the table's header and exactly the rows whose
      cell in the searched column contains `value` ignoring case, in file order
      and at least one of them. */
  lemma SearchFound(disk: Disk, dataDir: Path, tableName: string, column: string, value: string)
    requires GetCsvPath(dataDir, tableName) in disk.files
    requires disk.files[GetCsvPath(dataDir, tableName)].Ok?
    requires ColumnIndex(disk.files[GetCsvPath(dataDir, tableName)].value.columns, column).Some?
    requires var t := disk.files[GetCsvPath(dataDir, tableName)].value;
      Select(t, ColumnIndex(t.columns, column).value, value) != []
    ensures var path := GetCsvPath(dataDir, tableName);
      var r := SearchInTable(disk, dataDir, tableName, column, value);
      var t := disk.files[path].value;
      var j := ColumnIndex(t.columns, column).value;
      && r.Rows?
      && r.header == ColumnNames(t)
      && r.rows == Select(t, j, value)
      && r.rows != []
      && IsSubsequence(r.rows, t.rows)
      && (forall row :: row in r.rows <==> row in t.rows && Matches(CellAt(row, j), value))
      && forall row :: multiset(r.rows)[row] == if Matches(CellAt(row, j), value) then multiset(t.rows)[row] else 0
  {
    var path := GetCsvPath(dataDir, tableName);
    var t := disk.files[path].value;
    SelectSpec(t, ColumnIndex(t.columns, column).value, value);
  }
}
