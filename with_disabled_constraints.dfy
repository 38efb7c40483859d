/** The autocommit loader: it connects and switches autocommit on,
    optionally recreates the table, and executes the INSERTs one by one with
    no explicit commit, so each row is committed as soon as it is inserted.
    Its normalisation and command generation are the same as the
    transactional loader's. */
module WithDisabledConstraintsAndIndexes {
  import opened Values
  import opened Records
  import opened Schema
  import opened Sql
  import opened Normalizer
  import opened Database

  /** `format_row_values(row)`: the same loop and the same value list as the
      transactional loader's `prepare_values`. */
  method FormatRowValues(row: Record) returns (r: Result<seq<Token>>)
    requires row.Valid()
    modifies row
    ensures row.Valid() && row.keys == old(row.keys)
    ensures row.values == Loop(old(row.Snapshot())).values
    ensures r == Prepare(old(row.Snapshot()))
  {
    r := PrepareValues(row);
  }

  /** `create_sql_commands(data_list)`: one INSERT into CensusData per record,
      in order, or the first exception, with the records up to and including
      the one that raised rewritten in place. */
  method CreateSqlCommands(rows: seq<Record>) returns (r: Result<seq<Statement>>)
    requires forall i, j :: 0 <= i < j < |rows| ==> rows[i] != rows[j]
    requires forall i :: 0 <= i < |rows| ==> rows[i].Valid()
    modifies rows
    ensures AllWellFormed(old(Contents(rows)))
    ensures r == InsertCommands(CensusTable, old(Contents(rows)))
    ensures forall i :: 0 <= i < |rows| ==> rows[i].Valid() && rows[i].keys == old(rows[i].keys)
    ensures forall i :: 0 <= i < |rows| && OkBefore(PrepareEach(old(Contents(rows))), i) ==>
      rows[i].values == LoopEach(old(Contents(rows)))[i]
    ensures forall i :: 0 <= i < |rows| && !OkBefore(PrepareEach(old(Contents(rows))), i) ==>
      rows[i].values == old(rows[i].values)
  {
    r := GenerateInsertCommands(CensusTable, rows);
  }

  /** `connect_db()`: a new connection, then `connection.autocommit = True`. */
  method ConnectDb(accepts: Acceptance, server: Catalog) returns (conn: Connection)
    ensures fresh(conn) && conn.Valid()
    ensures conn.accepts == accepts && conn.autocommit
    ensures conn.committed == server && conn.pending == [] && !conn.aborted
  {
    conn := new Connection(accepts, server, false);
    var ok := conn.SetAutocommit(true);
  }

  /** `setup_table(connection)`: DROP TABLE IF EXISTS and CREATE TABLE, with no
      commit; under autocommit the server commits it at once. Afterwards the
      table has the census layout and no rows, whatever it held before. */
  method SetupTable(conn: Connection)
    requires conn.Valid() && conn.autocommit
    modifies conn
    ensures conn.Valid() && conn.autocommit && conn.pending == []
    ensures conn.committed == old(conn.committed)[CensusTable := Table(CensusColumns, [])]
  {
    var ok := conn.Execute(Recreate(CensusTable, CensusColumns));
  }

  /** `load_data(connection, sql_commands)`: execute the commands in order,
      with no commit. Each one that runs is committed at once, so when the
      first rejected command raises, the rows of the `done` commands before it
      stay committed; nothing is ever pending. */
  method LoadData(conn: Connection, commands: seq<Statement>) returns (done: nat)
    requires conn.Valid() && conn.autocommit
    modifies conn
    ensures conn.Valid() && conn.autocommit && conn.pending == []
    ensures done == Accepted(conn.accepts, old(conn.committed), commands)
    ensures conn.committed == OneByOne(conn.accepts, old(conn.committed), commands)
  {
    done := ExecuteEach(conn, commands);
  }

  /** `main()`, with the parsed arguments and the records read from the CSV
      file as parameters; `final` is what the server holds once the script
      has ended. A record that fails to normalise stops the script before the
      database is touched; otherwise the table keeps every row inserted before
      the first rejected one. */
  method RunScript(accepts: Acceptance, server: Catalog, recreate: bool, rows: seq<Record>)
    returns (outcome: Outcome, final: Catalog)
    requires forall i, j :: 0 <= i < j < |rows| ==> rows[i] != rows[j]
    requires forall i :: 0 <= i < |rows| ==> rows[i].Valid()
    modifies rows
    ensures AllWellFormed(old(Contents(rows)))
    ensures var base := if recreate then server[CensusTable := Table(CensusColumns, [])] else server;
      match InsertCommands(CensusTable, old(Contents(rows)))
      case Err(e) => outcome == NormalizationFailed(e) && final == server
      case Ok(cmds) =>
        final == OneByOne(accepts, base, cmds) &&
        outcome == if Accepted(accepts, base, cmds) == |cmds| then Loaded
                   else StatementFailed(Accepted(accepts, base, cmds))
  {
    var conn := ConnectDb(accepts, server);
    var commands := CreateSqlCommands(rows);
    if commands.Err? {
      return NormalizationFailed(commands.error), conn.committed;
    }
    if recreate {
      SetupTable(conn);
    }
    var done := LoadData(conn, commands.value);
    outcome := if done == |commands.value| then Loaded else StatementFailed(done);
    final := conn.committed;
  }
}
