# CSV Explorer: a Dafny model of the dataset access layer

The CSV Explorer is an MCP server (`server.py`). It exposes the CSV files of
one data directory to a tool-calling client. This project models the logic
underneath its transport and its pandas calls:

- **Path resolution** (`get_csv_path`). A dataset name gets the `.csv`
  extension unless it already has it. The file name is then joined to
  `DATA_DIR` with POSIX `os.path.join` semantics. An absolute component
  replaces the base, and nothing is normalised.
- **The catalog.** `list_tables` turns the directory listing into dataset
  names. `register_resources` registers one resource per `.csv` entry at
  start-up, each with its URI `csv://<file>`, its reader name
  `read_<cleaned file>` and a reader bound to that file's own path.
- **The query tools** `get_schema`, `query_data` and `search_in_table`. Each
  checks that the file exists, has the table parsed, and returns every
  failure as a value. Each tool has its own error messages and error
  precedence.

The filesystem and the parser are inputs of the model:

- a `Listing` of the data directory: absent, listed in `os.listdir` order, or
  unreadable with an exception message;
- a `Disk` mapping each existing path to what `pd.read_csv` gives: a `Table`
  (named, typed columns and rows of cells) or the text of the exception it
  raises;
- for resource reads, a map from paths to file text.

Modules: `Results` (Option/Result), `Text` (Python string operations),
`Seqs` (order-preserving filter and map), `Paths`, `Tables`, `Tools` and
`Catalog`. `Catalog.Server` is the MCP server object's resource registry, a
field that `RegisterResources` extends in a loop.

**No containment check.** A reader might expect a sandboxed resolver, one
that canonicalises the path, rejects anything outside the data directory and
fails with an error of its own. `server.py` has none. `Paths.ResolveAbsolute`,
`Paths.AbsoluteNameEscapes` and `Paths.ParentSegmentsPassThrough` show that
absolute names and unresolved `..` segments can reach files outside `DATA_DIR`. The tools
also call pandas synchronously on the event loop, and the model has no
concurrency.

**When the directory is read.** `list_tables` lists the directory afresh on
every call (server.py:26-27). `register_resources` scans it once, when the
module is imported (server.py:148, 163). So the dataset names follow the
directory as it changes, while the set of resources stays as it was at
start-up. In the model both take the `Listing` as a parameter. Nothing ties
the listing given to `Catalog.ListTables` to the one given to
`Catalog.Server.RegisterResources`, so they may differ, as in the code.

## Model

| member | source | states |
|---|---|---|
| `Paths.Join` | server.py:18 | the joined path ends with the component verbatim; a relative component keeps the base as a prefix |
| `Paths.DataDir` | server.py:10 | `DATA_DIR` ends in `data`, and is `BASE_DIR + "/data"` for a base without a trailing separator |
| `Paths.CanonicalFileName` | server.py:14-17 | the file name ends in `.csv`, starts with the dataset name, is at most one extension longer than it, and equals it when it already ends in `.csv` |
| `Paths.AppendsExtensionOnce` | server.py:14-15 | a name without the extension gets exactly one `.csv` appended |
| `Paths.CanonicalIdempotent` | server.py:14-17 | canonicalising twice is canonicalising once |
| `Paths.CanonicalAbsolute` | server.py:14-18 | the file name is absolute exactly when the dataset name is |
| `Paths.GetCsvPath` | server.py:12-18 | the resolved path ends with the canonical file name, hence with `.csv` |
| `Paths.ResolveRelative` | server.py:18 | a relative name resolves to `DATA_DIR + "/" + filename`, with no normalisation |
| `Paths.ResolveAbsolute` | server.py:18 | an absolute name discards `DATA_DIR` entirely (no containment check) |
| `Paths.ParentSegmentsPassThrough` | server.py:14-18 | a name starting with `../` resolves to a path starting with `DATA_DIR + "/../"`: the `..` is passed through unresolved, so `../secret` reaches `secret.csv` in the parent of `DATA_DIR` |
| `Paths.AbsoluteNameEscapes` | server.py:18 | `/etc/passwd` resolves to `/etc/passwd.csv` whatever `DATA_DIR` is |
| `Text.StartsWith` | server.py:14 | Python `startswith`: the prefix is no longer than the string and equals its first characters (definition) |
| `Text.EndsWith` | server.py:14 | Python `endswith` (also at lines 27 and 149): the suffix is no longer than the string and equals its last characters (definition) |
| `Text.Contains` | server.py:75 | a substring is never longer than the string holding it |
| `Text.ContainsIffOccurs` | server.py:75 | substring search holds exactly when the pattern occurs at some position |
| `Text.Replace` | server.py:27 | Python `str.replace`: length kept when pattern and replacement have equal length, never longer when the replacement is shorter, unchanged when the pattern does not occur |
| `Text.ReplaceCharPointwise` | server.py:158 | replacing one character by one character rewrites each position independently |
| `Text.EndsWithContains` | server.py:27 | a suffix is an occurrence |
| `Text.Lower` | server.py:75 | lower-casing works position by position and keeps the length |
| `Text.LowerIdempotent` | server.py:75 | lower-casing twice is lower-casing once |
| `Text.IgnoresCase` | server.py:75 | the case-insensitive match does not change when either side is lower-cased first |
| `Seqs.Filter` | server.py:27 | a filter's result is no longer than its input and holds only satisfying elements of it |
| `Seqs.FilterAppend` | server.py:27 | filtering distributes over concatenation, so input order is kept |
| `Seqs.FilterMembership` | server.py:75 | an element is kept exactly when it is in the input and satisfies the predicate |
| `Seqs.FilterKeeps` | server.py:75 | every satisfying element of the input is in the result |
| `Seqs.FilterIsSubsequence` | server.py:75 | the result is a subsequence of the input |
| `Seqs.FilterCount` | server.py:75 | each value occurs in the result exactly as often as in the input if it satisfies the predicate, and not at all otherwise |
| `Seqs.FilterEmpty` | server.py:76 | the result is empty exactly when no element satisfies the predicate |
| `Seqs.FilterDistinct` | server.py:148 | filtering a duplicate-free listing leaves it duplicate-free |
| `Seqs.Map` | server.py:27 | mapping keeps the length and transforms each position |
| `Seqs.MapAppend` | server.py:27 | mapping distributes over concatenation |
| `Tables.ColumnNames` | server.py:77 | the header has one name per column |
| `Tables.ColumnIndex` | server.py:73 | `None` exactly when no column has the name; otherwise the first column with that name |
| `Tables.CellAt` | server.py:75 | the cell read from column `j` of a row; a short row reads as missing (definition) |
| `Tables.Matches` | server.py:75 | `str.contains(value, case=False, na=False)` on one cell: a missing cell never matches, text matches when it contains `value` ignoring ASCII case (definition; properties in `Tables.MatchesExamples`, `Text.IgnoresCase`) |
| `Tables.Select` | server.py:75 | the boolean-mask selection: every selected row is a row of the table whose cell matches |
| `Tables.SelectSpec` | server.py:75 | the search filter keeps, in file order, exactly the rows whose cell contains the value ignoring case, each as many times as the table holds it; missing cells never match; the result is empty exactly when no row matches |
| `Tables.SelectAppend` | server.py:75 | selecting over concatenated row blocks selects block by block |
| `Tables.SearchExample` | server.py:75 | "cancel" keeps the rows "Cancelled" and "CANCELLED" and drops "Shipped" |
| `Tables.MatchesExamples` | server.py:75 | "cancel" matches "Cancelled" and "CANCELLED" but not "Shipped" |
| `Tables.Head` | server.py:49 | `head(n)` returns a prefix of the rows: `min(n, rowcount)` rows for `n >= 0`, all but the last `-n` for `n < 0` |
| `Tables.HeadAll` | server.py:49 | a limit at or beyond the row count returns every row |
| `Tables.HeadHead` | server.py:49 | for non-negative limits, two heads compose to the head with the smaller limit |
| `Tables.Schema` | server.py:38 | the schema's keys are the table's column names |
| `Tables.SchemaLastWins` | server.py:38 | each name is bound to the type of the last column with that name |
| `Tables.SchemaOfDistinct` | server.py:38 | with distinct names, one entry per column holding its type |
| `Tools.GetSchema` | server.py:32-40 | a missing file gives `{"error": "File non trovato"}`, a parser failure gives `{"error": <message>}`, and a parsed table gives a dictionary keyed by its column names |
| `Tools.SchemaPerColumn` | server.py:38 | on a parsed table, the dictionary has exactly one entry per column, holding that column's type |
| `Tools.SchemaErrorIsAmbiguous` | server.py:35-38 | a parsed table whose only column is `error` (of type `int64`) gives a dictionary with the same keys as a missing file, `{"error"}`; only the value tells them apart (errors are untagged) |
| `Tools.QueryData` | server.py:43-51 | a missing file gives `Errore: File non trovato`, a parser failure gives `Errore: <message>`, and otherwise the header and a prefix of the rows, `min(limit, rowcount)` of them for `limit >= 0` |
| `Tools.QueryDataDefault` | server.py:43 | `query_data` without a limit returns the first `min(5, rowcount)` rows |
| `Tools.QueryErrorIsAmbiguous` | server.py:46-51 | a parser failure reading "File non trovato" is reported exactly like a missing file |
| `Tools.SearchInTable` | server.py:67-79 | a missing file gives `Errore: Tabella non trovata.`, a parser failure `Errore ricerca: <message>`, an absent column `Errore: Colonna '<column>' non trovata.`; a row reply comes only from a parsed table, is non-empty and carries its header |
| `Tools.MessagesDistinct` | server.py:70-79 | the search's four messages never coincide, whatever the column or exception text |
| `Tools.SearchOutcomes` | server.py:67-79 | error precedence, each outcome if and only if its condition: missing file, else parser failure, else absent column, else `Nessun risultato.` for no match, else rows |
| `Tools.ColumnInNames` | server.py:73 | `column in df.columns` holds exactly when the column lookup succeeds |
| `Tools.SearchFound` | server.py:75-77 | on a parsed table with the column present and a non-empty selection, the reply is rows: the header and exactly `Select` of the table, an order-preserving selection of the matching rows, each as many times as the table holds it |
| `Catalog.IsCsv` | server.py:149 | `filename.endswith(".csv")`, the entry filter of both scans (here and at line 27) (definition) |
| `Catalog.TableName` | server.py:27 | a listed name is never longer than its file name, and is the file name itself when `.csv` does not occur in it |
| `Catalog.ListTables` | server.py:23-29 | `[]` when the directory is absent, `["Errore: <message>"]` when listing raises, otherwise one name per `.csv` entry |
| `Catalog.ListTablesAppend` | server.py:27 | the names keep listing order: concatenated listings give concatenated names |
| `Catalog.ListTablesSingle` | server.py:27 | one entry gives one name exactly when it ends in `.csv` |
| `Catalog.DeleteFirstOccurrence` | server.py:27 | after a stem without `.csv`, the first deleted occurrence is the one right after the stem |
| `Catalog.TableNameOfPlainStem` | server.py:27 | a file `<stem>.csv` whose stem holds no `.csv` lists as `<stem>` |
| `Catalog.ListedNameResolves` | server.py:12-27 | for such a file, the listed name resolves back to the file |
| `Catalog.EveryOccurrenceDeleted` | server.py:27 | `a.csv.csv` lists as `a`, not `a.csv` |
| `Catalog.DeletionCanCreateOccurrence` | server.py:27 | `a.cs.csvv.csv` lists as `a.csv`: deleting can form a new `.csv` |
| `Catalog.ListedNameMisresolves` | server.py:12-27 | the name listed for `a.csv.csv` resolves to a different file |
| `Catalog.LogicalName` | server.py:27 | corrected logical name: for a `.csv` file, canonicalising it gives back the file name |
| `Catalog.ListTablesResolvable` | server.py:23-29 | corrected `list_tables`, with the same absent, error and one-name-per-entry behaviour |
| `Catalog.ResolvableRoundTrip` | server.py:12-27 | every corrected name resolves to its own file |
| `Catalog.ResolvableAgrees` | server.py:27 | the corrected name equals the original one wherever the stem holds no `.csv` |
| `Catalog.MakeReader` | server.py:153-156 | a reader bound to the path given as its argument, named `<lambda>` (definition; the binding is used by `Catalog.Server.RegisterFile` and `Catalog.FetchReadsOwnFile`) |
| `Catalog.CleanName` | server.py:158 | the cleaned name has the file name's length; each `.` and `-` becomes `_`, and every other character stays |
| `Catalog.CleanNameSafe` | server.py:158 | the cleaned name holds no `.` and no `-` |
| `Catalog.CleanNameCollides` | server.py:158-159 | the distinct names `a-b.csv` and `a.b.csv` clean to the same reader-name stem |
| `Catalog.SafeName` | server.py:157-159 | corrected reader-name form: holds no `.` and no `-` |
| `Catalog.SafeNameRoundTrip` | server.py:157-159 | the corrected form decodes back to the file name |
| `Catalog.SafeNameInjective` | server.py:157-159 | distinct file names get distinct corrected names |
| `Catalog.SafeNameSeparates` | server.py:157-159 | `a-b.csv` and `a.b.csv` stay apart under the corrected form |
| `Catalog.Describe` | server.py:150-159 | the resource registered for one file: URI, reader name and reader path (definition; properties in `Catalog.RegistrationsSpec`) |
| `Catalog.Registrations` | server.py:148-161 | the resources one scan registers: `Describe` of each `.csv` entry, in listing order (definition; properties in `Catalog.RegistrationsSpec`, `Catalog.FetchReadsOwnFile`, `Catalog.UrisDistinct`) |
| `Catalog.RegistrationsSpec` | server.py:148-161 | one resource per `.csv` entry in listing order, with URI `csv://<file>`, reader name `read_<cleaned file>` and a reader on `DATA_DIR/<file>` |
| `Catalog.Lookup` | server.py:161 | a found resource is registered and has the URI asked for; `None` exactly when no registered resource has it |
| `Catalog.Invoke` | server.py:154 | calling a reader gives the current text of the file it is bound to, or nothing when it cannot be opened (definition) |
| `Catalog.FetchReadsOwnFile` | server.py:150-156 | fetching `csv://<file>` returns that file's resource, whose reader reads that file's current text, not the loop's last file |
| `Catalog.UrisDistinct` | server.py:148-150 | distinct directory entries register distinct URIs |
| `Catalog.ReaderNamesCollide` | server.py:157-159 | two entries can register different URIs under the same reader name |
| `Catalog.Server.constructor` | server.py:6 | a new server has no resources |
| `Catalog.Server.AddResource` | server.py:161 | registering appends one resource |
| `Catalog.Server.RegisterFile` | server.py:150-161 | one ".csv" entry appends exactly one resource: URI `csv://<file>`, reader `read_<clean name>` bound to the file's path in the data directory |
| `Catalog.Server.RegisterEntry` | server.py:149-161 | one pass of the loop: a `.csv` entry appends its one resource, any other entry leaves the registry unchanged |
| `Catalog.Server.RegisterResources` | server.py:144-161 | an absent directory registers nothing; an unreadable one raises before registering anything; otherwise exactly the resources of `Registrations` are appended, in listing order |

## Left out

- The FastMCP server, its decorators, the SSE transport (`mcp.run`) and the five prompt functions. These are a foreign library and static text.
- `get_stats`: `describe()` computes floating-point statistics in pandas. Only its existence check and error wrapping would be left to model, and that pattern is modelled in the other three tools.
- pandas' CSV parsing and type inference are inputs of the model (`Disk`). Rendering with `to_markdown` is left out: replies carry rows, not text, so the failure of `to_markdown` itself is not modelled.
- Real filesystem calls (`os.path.exists`, `os.listdir`, `open().read()`) are inputs of the model (`Disk`, `Listing` and a path-to-text map). `BASE_DIR` is an input parameter of `Paths.DataDir`.
- Tables.Matches: `str.contains` treats `value` as a regular expression by default. The model reads `value` literally, so it assumes `value` holds no regex metacharacters. Invalid patterns, which raise inside the `try`, are not modelled.
- Tables.Matches: case-insensitivity is modelled for ASCII letters only, not Unicode case folding.
- Tables.Matches: a missing cell never matches, as `na=False` states. With pandas versions before 3, `astype(str)` first turns a missing cell into the text `nan`, so such a cell would match values like `an`. The model does not capture that.
- Tables.ColumnIndex: with duplicate column names, `df[column]` would be a frame. `read_csv` renames duplicates, so the model simply takes the first column with the name.
- Text.Replace: requires a non-empty pattern. The server only passes the literals `.csv`, `.` and `-`.
- Catalog.Server.AddResource: what FastMCP does with a repeated URI or reader name is foreign code. The registry is kept as an ordered list of every registration. The model also assumes that `mcp.resource(uri)(reader)` never raises. If it raised partway through the loop, for instance on a file name holding `{…}` that FastMCP reads as a URI template, the earlier resources would stay registered and the exception would escape the import. `Catalog.Server.RegisterResources`' "otherwise exactly `Registrations` is appended" covers only runs where every registration succeeds.
- Catalog.Server.RegisterResources: the reader's `__name__` is modelled as a field of the reader value, and the lambda as the path it is bound to. File decoding (UTF-8) and read errors are collapsed into `Invoke` returning `None`.
- Windows path semantics (`ntpath`) are not modelled. The join is POSIX.
- Concurrency: every tool runs synchronously, and no work is moved to worker threads.

## Findings

| source | as written | input that shows it | evidently intended | confidence | as-written member | corrected member |
|---|---|---|---|---|---|---|
| server.py:27 | `f.replace('.csv', '')` deletes every `.csv` in the file name, not just the extension, so the listed name can resolve back through `get_csv_path` to a different file | a file `a.csv.csv` lists as `a`, which `get_schema`, `query_data` and `search_in_table` resolve to `a.csv` | strip the extension, so that a listed name, passed back to the tools, names its own file | not executed; high | `Catalog.ListedNameMisresolves` | `Catalog.ListTablesResolvable` (round trip proved by `Catalog.ResolvableRoundTrip`) |
| server.py:157-159 | `replace(".", "_").replace("-", "_")` gives the same reader name to different files, although the comment requires a unique name | files `a-b.csv` and `a.b.csv` both get the reader name `read_a_b_csv` | a reader name unique per file | not executed; high | `Catalog.ReaderNamesCollide` | `Catalog.SafeName` (injectivity proved by `Catalog.SafeNameInjective`) |

The registration loop (`Catalog.Server.RegisterResources`) and `Catalog.ListTables` model the code as written. The corrected definitions sit beside them.
