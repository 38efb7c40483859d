/** The transactional loader: it connects with autocommit off, optionally
    recreates the table and commits, executes every INSERT, and commits once
    after the last one. */
module WithoutAutoCommit {
  import opened Values
  import opened Records
  import opened Schema
  import opened Sql
  import opened Normalizer
  import opened Database

  /** `connect_to_database()`: a connection with autocommit off. */
  method ConnectToDatabase(accepts: Acceptance, server: Catalog) returns (conn: Connection)
    ensures fresh(conn) && conn.Valid()
    ensures conn.accepts == accepts && !conn.autocommit
    ensures conn.committed == server && conn.pending == [] && !conn.aborted
  {
    conn := new Connection(accepts, server, false);
  }

  /** `create_database_table(connection)`: DROP TABLE IF EXISTS and CREATE
      TABLE in one statement, then a commit. Afterwards the table has the
      census layout and no rows, whatever it held before, and every session
      sees it. */
  method CreateDatabaseTable(conn: Connection) returns (ok: bool)
    requires conn.Valid() && !conn.autocommit
    modifies conn
    ensures conn.Valid() && !conn.autocommit
    ensures ok <==> !old(conn.aborted)
    ensures ok ==> (conn.pending == [] && !conn.aborted &&
      conn.committed == old(conn.Current())[CensusTable := Table(CensusColumns, [])])
    ensures !ok ==> conn.committed == old(conn.committed) && conn.pending == old(conn.pending) && conn.aborted
  {
    ok := conn.Execute(Recreate(CensusTable, CensusColumns));
    if ok {
      conn.Commit();
    }
  }

  /** The load step of `main`: execute every command, then commit once.
      `done` counts the commands that ran. Either every command runs and all
      of their work is committed together, or one raises, the commit is never
      reached, and nothing of the load is committed. */
  method LoadAndCommit(conn: Connection, commands: seq<Statement>) returns (done: nat)
    requires conn.Valid() && !conn.autocommit && !conn.aborted
    modifies conn
    ensures conn.Valid() && !conn.autocommit
    ensures done == Accepted(conn.accepts, old(conn.Current()), commands)
    ensures done == |commands| <==> Run(conn.accepts, old(conn.Current()), commands).Some?
    ensures done == |commands| ==> (conn.pending == [] && !conn.aborted &&
      conn.committed == Run(conn.accepts, old(conn.Current()), commands).value)
    ensures done < |commands| ==> (conn.committed == old(conn.committed) && conn.aborted &&
      conn.pending == old(conn.pending) + commands[..done])
  {
    ghost var start := conn.Current();
    done := ExecuteEach(conn, commands);
    LoadsAgreeWhenAllAccepted(conn.accepts, start, commands);
    if done == |commands| {
      assert commands[..done] == commands;
      conn.Commit();
    }
  }

  /** `main()`, with the parsed arguments and the records read from the CSV
      file as parameters; `final` is what the server holds once the script
      has ended (an open transaction is rolled back when the connection goes
      away). A record that fails to normalise stops the script before the
      database is touched; otherwise the table ends up with all of this run's
      rows or with none of them. */
  method RunScript(accepts: Acceptance, server: Catalog, recreate: bool, rows: seq<Record>)
    returns (outcome: Outcome, final: Catalog)
    requires forall i, j :: 0 <= i < j < |rows| ==> rows[i] != rows[j]
    requires forall i :: 0 <= i < |rows| ==> rows[i].Valid()
    modifies rows
    ensures AllWellFormed(old(Contents(rows)))
    ensures var base := if recreate then server[CensusTable := Table(CensusColumns, [])] else server;
      match InsertCommands(CensusTable, old(Contents(rows)))
      case Err(e) => outcome == NormalizationFailed(e) && final == server
      case Ok(cmds) =>
        final == InTransaction(accepts, base, cmds) &&
        outcome == if Accepted(accepts, base, cmds) == |cmds| then Loaded
                   else StatementFailed(Accepted(accepts, base, cmds))
  {
    var conn := ConnectToDatabase(accepts, server);
    var commands := GenerateInsertCommands(CensusTable, rows);
    if commands.Err? {
      conn.Close();
      return NormalizationFailed(commands.error), conn.committed;
    }
    if recreate {
      var ok := CreateDatabaseTable(conn);
    }
    ghost var base := conn.Current();
    var done := LoadAndCommit(conn, commands.value);
    conn.Close();
    outcome := if done == |commands.value| then Loaded else StatementFailed(done);
    final := conn.committed;
    LoadsAgreeWhenAllAccepted(accepts, base, commands.value);
  }
}
