# Census CSV loader, modelled in Dafny

Two Python scripts load rows of a census CSV file into the PostgreSQL table
`CensusData`. Each script reads the file with `csv.DictReader`. It normalises
every record in place: every falsy field becomes `0`, and `County` loses its
apostrophes. It renders the record as the value list of an
`INSERT INTO CensusData VALUES (...)` statement, optionally drops and
recreates the table, and executes the INSERTs.

The two scripts differ only in how they commit:

- `WithoutAutoCommit` asks for a connection with autocommit off, executes every INSERT,
  and commits once after the last one;
- `WithDisabledConstraintsandIndexes` switches autocommit on and never
  commits, so every INSERT is durable as soon as it runs.

The model has these modules:

- `Values`: field values `Str(s) | Zero`, Python truthiness, the two exceptions
  the normaliser can raise, and `str.replace("'", "")`.
- `Schema`: the 37-column layout of the CREATE TABLE statement.
- `Sql`: statements as tokens — an INSERT is its table plus its value list,
  each value bare or single-quoted.
- `Records`: a record as the mutable dict the CSV reader yields, kept as its
  keys in header order and the values at the same positions.
- `Normalizer`: the normalisation loop, the f-string value list, and INSERT
  generation. It is shared by both scripts, whose copies of this code are the
  same up to comments and whitespace.
  - The loop is proved equal to a closed-form `Reference`: normalisation
    succeeds exactly when the record is empty, or County is present and, at
    the moment County's own iteration comes, not falsy. The exact failure
    cases follow from that.
  - The methods are proved against the functions `Loop`, `Prepare` and
    `InsertCommands`.
- `Database`: the server as a catalog of tables. A statement applies or is
  rejected. A connection holds committed state, the statements of its open
  transaction, and an aborted flag, and runs in autocommit mode or not.
- `WithoutAutoCommit`, `WithDisabledConstraintsAndIndexes`: the two scripts'
  own functions and `main`.

Notes on the code's behaviour:

- The table, and the value list, have 37 columns.
- Normalising an already-normalised record is not always a no-op. Suppose
  `County` is the first key and holds apostrophes only. The first pass
  succeeds and leaves `''` there. A second pass writes `0` over it and raises
  AttributeError. `NormalizeIdempotent` proves idempotence in every other case
  and proves that this case fails.
- An empty `County` always makes normalisation raise. An apostrophe-only
  `County` makes it raise unless `County` is the first key. The cause is the
  County line running inside the loop.

## Model

| member | source | states |
|---|---|---|
| `Values.StripApostrophes` | Storrage/WithoutAutoCommit.py.py:19 | the stripped string holds no apostrophe and is shorter by exactly the number of apostrophes in the input |
| `Values.StripFixedPoint` | Storrage/WithoutAutoCommit.py.py:19 | stripping leaves a string alone exactly when it holds no apostrophe; stripping twice equals stripping once |
| `Values.StripEmpty` | Storrage/WithoutAutoCommit.py.py:19 | stripping yields the empty string exactly when the input consists of apostrophes only |
| `Schema.CensusColumnsShape` | Storrage/WithoutAutoCommit.py.py:107-145 | the CREATE TABLE layout has 37 columns; exactly the second and third, State and County, are TEXT |
| `Sql.TokenText` | Storrage/WithoutAutoCommit.py.py:23-24 | a quoted value is its text, unchanged, between two apostrophes, and adds exactly two apostrophes; a bare value is its text |
| `Records.Get` | Storrage/WithoutAutoCommit.py.py:19 | `row[k]` raises KeyError(k) exactly when the record has no key k |
| `Normalizer.IterateStaysFailed` | Storrage/WithoutAutoCommit.py.py:16-19 | once an iteration of the loop has raised, later iterations change nothing |
| `Normalizer.IterateSucceeds` | Storrage/WithoutAutoCommit.py.py:16-19 | while County survives, the first n iterations leave County stripped and the first n falsy values set to 0 |
| `Normalizer.FirstIterationRaises` | Storrage/WithoutAutoCommit.py.py:16-19 | an exception in the first iteration is the exception of the whole loop |
| `Normalizer.CountyEmptiedLater` | Storrage/WithoutAutoCommit.py.py:16-19 | an apostrophe-only County after the first key is emptied by the first iteration, set to 0 in its own, and the loop raises AttributeError |
| `Normalizer.NormalizeIsReference` | Storrage/WithoutAutoCommit.py.py:16-19 | the loop yields exactly the closed-form reference: KeyError without County, AttributeError when County is 0 or emptied before its own iteration, otherwise County stripped and every falsy value 0 |
| `Normalizer.NormalizeRewrites` | Storrage/WithoutAutoCommit.py.py:16-19 | after a successful normalisation each key keeps one value; every falsy value is 0; every other non-County value is unchanged; County is its original string stripped |
| `Normalizer.NormalizedCounty` | Storrage/WithoutAutoCommit.py.py:19 | after normalisation County holds no apostrophe and is shorter by exactly its apostrophe count |
| `Normalizer.CountyFirst` | Storrage/WithoutAutoCommit.py.py:16-19 | with County as first key, normalisation fails (AttributeError) exactly when County is empty, else County is stripped |
| `Normalizer.CountyLater` | Storrage/WithoutAutoCommit.py.py:16-19 | with County after the first key (CensusTract, State, County, ...), normalisation fails, with AttributeError, exactly when County is empty or apostrophes only |
| `Normalizer.MissingCounty` | Storrage/WithoutAutoCommit.py.py:19 | normalisation raises KeyError('County') exactly when the record is non-empty and lacks County |
| `Normalizer.NormalizeIdempotent` | Storrage/WithoutAutoCommit.py.py:16-19 | normalising a normalised record gives it back unchanged, except exactly when County is first and was left empty, where it raises AttributeError |
| `Normalizer.ValueFieldNames` | Storrage/WithoutAutoCommit.py.py:21-58 | the value list reads 37 keys, which are the CREATE TABLE column names in the same order |
| `Normalizer.ValueFieldsQuoted` | Storrage/WithoutAutoCommit.py.py:21-58 | exactly the second and third entries of the value list (State, County) are quoted |
| `Normalizer.RenderFromSpec` | Storrage/WithoutAutoCommit.py.py:21-59 | rendering a suffix of the fields succeeds exactly when every field is present, giving one token per field with its value; otherwise it raises KeyError for the first missing field |
| `Normalizer.RenderValuesSpec` | Storrage/WithoutAutoCommit.py.py:21-61 | the value list exists exactly when all 37 columns are keys; it has 37 tokens carrying the columns' values in column order, quoted exactly for the TEXT columns; otherwise KeyError names the first missing column |
| `Normalizer.CountyLiteralDelimited` | Storrage/WithoutAutoCommit.py.py:19-24 | in a rendered value list the County literal is quoted and contains no apostrophe besides its two delimiters |
| `Normalizer.NormalizeRow` | Storrage/WithoutAutoCommit.py.py:16-19 | the in-place loop leaves the keys alone, leaves the values the loop function computes, and reports the exception that ends it |
| `Normalizer.PrepareValues` | Storrage/WithoutAutoCommit.py.py:14-61 | `prepare_values` rewrites the record as the loop does and returns the value list of the normalised record, or the loop's exception |
| `Normalizer.CollectSpec` | Storrage/WithoutAutoCommit.py.py:85-90 | appending per prepared record gives one INSERT per entry in order when all succeed, else the first entry's exception |
| `Normalizer.InsertCommandsSpec` | Storrage/WithoutAutoCommit.py.py:83-90 | generation succeeds exactly when every record prepares; it then has one INSERT into the table per record, in input order, carrying that record's value list; otherwise it raises the first failing record's exception |
| `Normalizer.GenerateInsertCommands` | Storrage/WithoutAutoCommit.py.py:83-90 | returns what `InsertCommands` specifies; the records up to and including the first failing one are rewritten by the loop, the later ones are untouched, keys never change |
| `Database.Apply` | Storrage/WithoutAutoCommit.py.py:105-107 | a statement that runs adds its table to the catalog and leaves every other table as it was |
| `Database.Accepted` | Storrage/WithoutAutoCommit.py.py:163-164 | the number of commands before the first rejection: that prefix runs and one more command does not |
| `Database.AcceptedIsFirstRejection` | Storrage/WithoutAutoCommit.py.py:163-164 | a prefix of the commands runs exactly when it is no longer than the accepted count |
| `Database.RunInserts` | Storrage/WithoutAutoCommit.py.py:163-164 | INSERTs into an existing table run exactly when every value list is accepted, and then append their rows in order, touching no other table |
| `Database.InTransactionAllOrNothing` | Storrage/WithoutAutoCommit.py.py:163-165 | loading in one transaction leaves the table with all rows appended when every one is accepted, and unchanged otherwise |
| `Database.OneByOneKeepsPrefix` | Storrage/WithDisabledConstraintsandIndexes.py.py:160-161 | loading under autocommit appends exactly the rows before the first rejected one, which are all accepted |
| `Database.RecreateThenInsert` | Storrage/WithDisabledConstraintsandIndexes.py.py:109-150 | DROP/CREATE followed by accepted INSERTs leaves the new layout holding exactly the inserted rows, whatever the table held before |
| `Database.RunAppend` | Storrage/WithoutAutoCommit.py.py:156-164 | running two lists of statements one after the other is running their concatenation |
| `Database.LoadsAgreeWhenAllAccepted` | Storrage/WithoutAutoCommit.py.py:163-165 | when every command is accepted, the transaction and autocommit ways of loading leave the same catalog |
| `Database.ExecuteEach` | Storrage/WithoutAutoCommit.py.py:163-164 | executes the commands in order up to the first rejection; under autocommit each one is committed, otherwise they join the open transaction, which a rejection aborts |
| `Database.Connection.constructor` | Storrage/WithoutAutoCommit.py.py:94-100 | a new connection has the server's committed state, no open work, and the requested autocommit mode |
| `Database.Connection.SetAutocommit` | Storrage/WithDisabledConstraintsandIndexes.py.py:103 | switching autocommit succeeds exactly when no transaction is open, and changes nothing else |
| `Database.Connection.Execute` | Storrage/WithoutAutoCommit.py.py:164 | a statement runs against the connection's current view unless the transaction is aborted; under autocommit it is committed at once, otherwise it joins the transaction, and a rejection aborts it |
| `Database.Connection.Commit` | Storrage/WithoutAutoCommit.py.py:165 | the transaction's work becomes committed; an aborted transaction is rolled back instead |
| `Database.Connection.Close` | Storrage/WithoutAutoCommit.py.py:150-167 | when the script ends the open transaction is rolled back and committed state stays |
| `WithoutAutoCommit.ConnectToDatabase` | Storrage/WithoutAutoCommit.py.py:92-100 | a fresh connection with autocommit off, no open work |
| `WithoutAutoCommit.CreateDatabaseTable` | Storrage/WithoutAutoCommit.py.py:102-148 | DROP/CREATE then commit: the table has the census layout and no rows, and this is committed |
| `WithoutAutoCommit.LoadAndCommit` | Storrage/WithoutAutoCommit.py.py:160-165 | when every command runs, all of them are committed together by the one commit; when one raises, nothing of the load is committed and the aborted transaction holds exactly the commands that ran |
| `WithoutAutoCommit.RunScript` | Storrage/WithoutAutoCommit.py.py:150-167 | a record that fails to normalise leaves the server untouched; otherwise the table ends with all of this run's rows or none of them |
| `WithDisabledConstraintsAndIndexes.FormatRowValues` | Storrage/WithDisabledConstraintsandIndexes.py.py:14-60 | `format_row_values` rewrites the record as the loop does and returns the value list or the loop's exception, exactly as `prepare_values` |
| `WithDisabledConstraintsAndIndexes.CreateSqlCommands` | Storrage/WithDisabledConstraintsandIndexes.py.py:87-93 | one INSERT into CensusData per record, in order, or the first exception; records up to the failing one are rewritten |
| `WithDisabledConstraintsAndIndexes.ConnectDb` | Storrage/WithDisabledConstraintsandIndexes.py.py:96-104 | a fresh connection in autocommit mode with no open work |
| `WithDisabledConstraintsAndIndexes.SetupTable` | Storrage/WithDisabledConstraintsandIndexes.py.py:107-152 | under autocommit DROP/CREATE is committed at once: the table has the census layout and no rows |
| `WithDisabledConstraintsAndIndexes.LoadData` | Storrage/WithDisabledConstraintsandIndexes.py.py:155-164 | the commands run in order up to the first rejection, each one committed as it runs, nothing pending |
| `WithDisabledConstraintsAndIndexes.RunScript` | Storrage/WithDisabledConstraintsandIndexes.py.py:167-176 | a record that fails to normalise leaves the server untouched; otherwise the table keeps every row inserted before the first rejected one |

## Left out

- Argument parsing (`configure`, `setup`) and the module-level settings: the recreate flag is a parameter, and the table name is the constant `CensusTable`.
- Reading the CSV file (`load_data_from_file`, `fetch_data`, `csv.DictReader`) is I/O: the records are given as `Record` objects. A short CSV row, whose missing fields the reader fills with `None`, is not modelled. Such a field is falsy and becomes `0` like an empty string. But a `None` County raises on the first iteration's `.replace`, not on County's own iteration, so the records would be left in a different state when the error is raised.
- The text of the statements: whitespace, the `-- column` comments, and the `INSERT INTO ... VALUES (...);` framing are abstracted into `Sql.Statement` tokens.
- The server's checks on a value list (numeric literals well formed, arity, a State or value containing an apostrophe breaking the literal) are the parameter `accepts`. The code validates nothing and escapes nothing except County.
- psycopg2 internals: how `connect(..., autocommit=False)` is realised, cursors, and connection failures. A failing `connect` is not modelled. In particular, psycopg2 hands unknown keyword arguments of `connect` to libpq as connection options, and libpq has no `autocommit` option, so the transactional script most likely fails at `connect` with "invalid connection option"; the model takes that call to open a connection with autocommit off.
- Database.Apply: DROP TABLE IF EXISTS with CREATE TABLE is one statement that the model always accepts; a server refusing it is not modelled.
- Timing and printing (`time.perf_counter`, elapsed seconds, progress messages).
- The bulk-copy loader in `Storrage/copy form (i).py` is not part of this model. Neither file disables constraints or indexes, despite the second file's name.
- Normalizer.GenerateInsertCommands: requires the list to hold distinct record objects. A Python list holding the same dict twice would normalise it twice; that aliasing is not modelled.
- WithDisabledConstraintsAndIndexes.CreateSqlCommands: requires the list to hold distinct record objects. A Python list holding the same dict twice would normalise it twice; that aliasing is not modelled.
- WithoutAutoCommit.RunScript: requires the list to hold distinct record objects. A Python list holding the same dict twice would normalise it twice; that aliasing is not modelled.
- WithDisabledConstraintsAndIndexes.RunScript: requires the list to hold distinct record objects. A Python list holding the same dict twice would normalise it twice; that aliasing is not modelled.
- A psycopg2 exception stopping `main` is modelled by `ExecuteEach` returning the number of commands that ran; the exception object itself is not modelled.
