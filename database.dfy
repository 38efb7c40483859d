/** The PostgreSQL server as both loaders see it through one connection: a
    catalog of tables, statements that either apply or are rejected, and the
    transaction that holds a connection's work until it is committed.

    Whether the server accepts a value list for a table (it checks each
    literal against the column's type, and the arity) is not modelled: it is a
    parameter of the connection, `accepts`. */
module Database {
  import opened Values
  import opened Schema
  import opened Sql

  /** A table: its column layout and its rows in insertion order. */
  datatype Table = Table(columns: seq<Column>, rows: seq<seq<Token>>)

  /** The server's tables by name. */
  type Catalog = map<string, Table>

  /** The server's verdict on a value list for a table with these columns. */
  type Acceptance = (seq<Column>, seq<Token>) -> bool

  /** One statement against the catalog, or `None` when the server rejects it.
      DROP TABLE IF EXISTS followed by CREATE TABLE leaves an empty table with
      the new layout; an INSERT needs an existing table and an accepted value
      list, and appends one row. */
  function Apply(accepts: Acceptance, cat: Catalog, s: Statement): (r: Option<Catalog>)
    ensures r.Some? ==> r.value.Keys == cat.Keys + {s.table}
    ensures r.Some? ==> forall u :: u in cat && u != s.table ==> r.value[u] == cat[u]
  {
    match s
    case Recreate(t, cols) => Some(cat[t := Table(cols, [])])
    case Insert(t, vs) =>
      if t in cat && accepts(cat[t].columns, vs) then
        Some(cat[t := Table(cat[t].columns, cat[t].rows + [vs])])
      else None
  }

  /** The statements in order; the first rejection ends the run. */
  function Run(accepts: Acceptance, cat: Catalog, ss: seq<Statement>): Option<Catalog>
  {
    if ss == [] then Some(cat)
    else
      match Run(accepts, cat, ss[..|ss| - 1])
      case None => None
      case Some(c) => Apply(accepts, c, ss[|ss| - 1])
  }

  /** Running one more statement is applying it to what the prefix left. */
  lemma RunSnoc(accepts: Acceptance, cat: Catalog, ss: seq<Statement>, s: Statement)
    requires Run(accepts, cat, ss).Some?
    ensures Run(accepts, cat, ss + [s]) == Apply(accepts, Run(accepts, cat, ss).value, s)
  {
    assert (ss + [s])[..|ss|] == ss;
  }

  /** A rejected prefix makes the whole run fail. */
  lemma {:induction false} RunPrefixFails(accepts: Acceptance, cat: Catalog, ss: seq<Statement>, k: nat)
    requires k <= |ss| && Run(accepts, cat, ss[..k]).None?
    ensures Run(accepts, cat, ss).None?
    decreases |ss| - k
  {
    if k < |ss| {
      assert ss[..k + 1][..k] == ss[..k];
      RunPrefixFails(accepts, cat, ss, k + 1);
    } else {
      assert ss[..k] == ss;
    }
  }

  /** How many statements run before the first rejection (all of them when
      none is rejected). */
  function Accepted(accepts: Acceptance, cat: Catalog, ss: seq<Statement>): (k: nat)
    ensures k <= |ss|
    ensures Run(accepts, cat, ss[..k]).Some?
    ensures k < |ss| ==> Run(accepts, cat, ss[..k + 1]).None?
  {
    if ss == [] then 0
    else
      var init := ss[..|ss| - 1];
      var k := Accepted(accepts, cat, init);
      assert ss[..k] == init[..k];
      if k < |init| then
        assert ss[..k + 1] == init[..k + 1];
        k
      else if Run(accepts, cat, ss).Some? then
        assert ss[..|ss|] == ss;
        |ss|
      else
        assert ss[..k + 1] == ss;
        k
  }

  /** The prefixes that run are exactly those up to the first rejection. */
  lemma AcceptedIsFirstRejection(accepts: Acceptance, cat: Catalog, ss: seq<Statement>, j: nat)
    requires j <= |ss|
    ensures Run(accepts, cat, ss[..j]).Some? <==> j <= Accepted(accepts, cat, ss)
  {
    var k := Accepted(accepts, cat, ss);
    if j > k {
      assert ss[..j][..k + 1] == ss[..k + 1];
      RunPrefixFails(accepts, cat, ss[..j], k + 1);
    } else if Run(accepts, cat, ss[..j]).None? {
      assert ss[..k][..j] == ss[..j];
      RunPrefixFails(accepts, cat, ss[..k], j);
    }
  }

  /** Every statement is an INSERT into table `t`. */
  predicate InsertsInto(ss: seq<Statement>, t: string) {
    forall i :: 0 <= i < |ss| ==> ss[i].Insert? && ss[i].table == t
  }

  /** The value lists of a run of INSERTs. */
  function RowsOf(ss: seq<Statement>): (vs: seq<seq<Token>>)
    requires forall i :: 0 <= i < |ss| ==> ss[i].Insert?
    ensures |vs| == |ss| && forall i :: 0 <= i < |ss| ==> vs[i] == ss[i].values
  {
    seq(|ss|, i requires 0 <= i < |ss| && ss[i].Insert? => ss[i].values)
  }

  /** INSERTs into an existing table run exactly when the server accepts each
      of their value lists; they then leave the table with its layout and its
      old rows followed by theirs, in order, and the other tables untouched. */
  lemma {:induction false} RunInserts(accepts: Acceptance, cat: Catalog, t: string, ss: seq<Statement>)
    requires t in cat && InsertsInto(ss, t)
    ensures Run(accepts, cat, ss).Some? <==>
      forall j :: 0 <= j < |ss| ==> accepts(cat[t].columns, ss[j].values)
    ensures Run(accepts, cat, ss).Some? ==>
      Run(accepts, cat, ss).value == cat[t := Table(cat[t].columns, cat[t].rows + RowsOf(ss))]
  {
    if ss != [] {
      var init := ss[..|ss| - 1];
      var last := ss[|ss| - 1];
      assert InsertsInto(init, t);
      RunInserts(accepts, cat, t, init);
      if Run(accepts, cat, init).Some? {
        var c := Run(accepts, cat, init).value;
        assert c[t].columns == cat[t].columns;
        assert Run(accepts, cat, ss) == Apply(accepts, c, last);
        assert RowsOf(ss) == RowsOf(init) + [last.values];
        assert cat[t].rows + RowsOf(ss) == (cat[t].rows + RowsOf(init)) + [last.values];
        assert c[t := Table(cat[t].columns, cat[t].rows + RowsOf(ss))] ==
          cat[t := Table(cat[t].columns, cat[t].rows + RowsOf(ss))];
      }
    } else {
      assert cat[t].rows + RowsOf(ss) == cat[t].rows;
      assert cat[t := cat[t]] == cat;
    }
  }

  /** The catalog a transaction leaves once it is over: everything its
      statements did when all of them ran and it was committed, nothing
      otherwise. */
  function InTransaction(accepts: Acceptance, cat: Catalog, ss: seq<Statement>): Catalog {
    match Run(accepts, cat, ss)
    case Some(c) => c
    case None => cat
  }

  /** The catalog an autocommit connection leaves: each statement is committed
      on its own, up to the first rejected one. */
  function OneByOne(accepts: Acceptance, cat: Catalog, ss: seq<Statement>): Catalog {
    Run(accepts, cat, ss[..Accepted(accepts, cat, ss)]).value
  }

  /** Loading INSERTs in one transaction is all or nothing: the table gains all
      of the rows, in order, when the server accepts every one of them, and is
      left as it was when it rejects any. */
  lemma InTransactionAllOrNothing(accepts: Acceptance, cat: Catalog, t: string, ss: seq<Statement>)
    requires t in cat && InsertsInto(ss, t)
    ensures InTransaction(accepts, cat, ss) ==
      if forall j :: 0 <= j < |ss| ==> accepts(cat[t].columns, ss[j].values)
      then cat[t := Table(cat[t].columns, cat[t].rows + RowsOf(ss))]
      else cat
  {
    RunInserts(accepts, cat, t, ss);
  }

  /** Loading INSERTs one by one under autocommit keeps the rows before the
      first rejected one: the table gains exactly the first `k` rows, where
      `k` counts the value lists accepted before the first rejection. */
  lemma OneByOneKeepsPrefix(accepts: Acceptance, cat: Catalog, t: string, ss: seq<Statement>)
    requires t in cat && InsertsInto(ss, t)
    ensures var k := Accepted(accepts, cat, ss);
      (forall j :: 0 <= j < k ==> accepts(cat[t].columns, ss[j].values)) &&
      (k < |ss| ==> !accepts(cat[t].columns, ss[k].values)) &&
      OneByOne(accepts, cat, ss) == cat[t := Table(cat[t].columns, cat[t].rows + RowsOf(ss[..k]))]
  {
    var k := Accepted(accepts, cat, ss);
    assert InsertsInto(ss[..k], t);
    RunInserts(accepts, cat, t, ss[..k]);
    forall j | 0 <= j < k ensures accepts(cat[t].columns, ss[j].values) {
      assert ss[..k][j] == ss[j];
    }
    if k < |ss| {
      assert InsertsInto(ss[..k + 1], t);
      RunInserts(accepts, cat, t, ss[..k + 1]);
      assert ss[..k + 1][k] == ss[k];
    }
  }

  /** DROP TABLE IF EXISTS with CREATE TABLE, then INSERTs: the table ends up
      with the new layout and exactly the inserted rows, whatever it held
      before. */
  lemma RecreateThenInsert(accepts: Acceptance, cat: Catalog, t: string, cols: seq<Column>, ss: seq<Statement>)
    requires InsertsInto(ss, t)
    requires forall j :: 0 <= j < |ss| ==> accepts(cols, ss[j].values)
    ensures Run(accepts, cat, [Recreate(t, cols)] + ss) == Some(cat[t := Table(cols, RowsOf(ss))])
  {
    var emptied := cat[t := Table(cols, [])];
    assert Run(accepts, cat, [Recreate(t, cols)]) == Some(emptied) by {
      assert [Recreate(t, cols)][..0] == [];
    }
    RunInserts(accepts, emptied, t, ss);
    assert [] + RowsOf(ss) == RowsOf(ss);
    assert emptied[t := Table(cols, RowsOf(ss))] == cat[t := Table(cols, RowsOf(ss))];
    RunAppend(accepts, cat, [Recreate(t, cols)], ss);
  }

  /** Running `a + b` is running `b` from where `a` left off. */
  lemma {:induction false} RunAppend(accepts: Acceptance, cat: Catalog, a: seq<Statement>, b: seq<Statement>)
    ensures Run(accepts, cat, a + b) ==
      match Run(accepts, cat, a)
      case None => None
      case Some(c) => Run(accepts, c, b)
  {
    if b == [] {
      assert a + b == a;
    } else {
      var init := b[..|b| - 1];
      assert (a + b)[..|a + b| - 1] == a + init;
      RunAppend(accepts, cat, a, init);
    }
  }

  /** Both ways of loading agree when the server accepts every statement. */
  lemma LoadsAgreeWhenAllAccepted(accepts: Acceptance, cat: Catalog, ss: seq<Statement>)
    ensures Run(accepts, cat, ss).Some? <==> Accepted(accepts, cat, ss) == |ss|
    ensures Run(accepts, cat, ss).Some? ==>
      InTransaction(accepts, cat, ss) == OneByOne(accepts, cat, ss) == Run(accepts, cat, ss).value
  {
    AcceptedIsFirstRejection(accepts, cat, ss, |ss|);
    assert ss[..|ss|] == ss;
  }

  /** How a run of a loader script ends. */
  datatype Outcome =
    | Loaded
    | NormalizationFailed(error: PyError)
    | StatementFailed(index: nat)

  /** One psycopg2 connection to the server. Statements run against the
      committed catalog plus the connection's own uncommitted work. Outside
      autocommit mode a rejected statement aborts the transaction: the server
      refuses every later statement until a commit or rollback ends it, and
      that ending discards the transaction's work. */
  class Connection {
    const accepts: Acceptance
    var autocommit: bool
    /** What every session sees. */
    var committed: Catalog
    /** The statements of the open transaction that have run. */
    var pending: seq<Statement>
    /** The open transaction has seen a rejected statement. */
    var aborted: bool

    ghost predicate Valid()
      reads this
    {
      Run(accepts, committed, pending).Some? && (autocommit ==> pending == [] && !aborted)
    }

    /** The catalog this connection's statements see. */
    function Current(): Catalog
      reads this
      requires Valid()
    {
      Run(accepts, committed, pending).value
    }

    /** `psycopg2.connect(...)`: a new connection with no transaction open. */
    constructor (accepts: Acceptance, server: Catalog, autocommit: bool)
      ensures Valid()
      ensures this.accepts == accepts && this.autocommit == autocommit
      ensures committed == server && pending == [] && !aborted
    {
      this.accepts := accepts;
      this.autocommit := autocommit;
      committed := server;
      pending := [];
      aborted := false;
    }

    /** `connection.autocommit = on`. psycopg2 refuses the change while a
        transaction is open. */
    method SetAutocommit(on: bool) returns (ok: bool)
      requires Valid()
      modifies this
      ensures Valid()
      ensures ok <==> old(pending) == [] && !old(aborted)
      ensures autocommit == if ok then on else old(autocommit)
      ensures committed == old(committed) && pending == old(pending) && aborted == old(aborted)
    {
      ok := pending == [] && !aborted;
      if ok {
        autocommit := on;
      }
    }

    /** `cursor.execute(s)`; `ok` is false when it raises. Under autocommit an
        accepted statement is committed at once. Otherwise it joins the open
        transaction, and a rejection aborts the transaction. */
    method Execute(s: Statement) returns (ok: bool)
      requires Valid()
      modifies this
      ensures Valid() && autocommit == old(autocommit)
      ensures ok <==> !old(aborted) && Apply(accepts, old(Current()), s).Some?
      ensures old(autocommit) ==> (pending == [] && !aborted &&
        committed == if ok then Apply(accepts, old(committed), s).value else old(committed))
      ensures !old(autocommit) ==> (committed == old(committed) &&
        pending == (if ok then old(pending) + [s] else old(pending)) &&
        aborted == !ok)
    {
      if aborted {
        return false;
      }
      var next := Apply(accepts, Current(), s);
      match next
      case None =>
        if !autocommit {
          aborted := true;
        }
        ok := false;
      case Some(c) =>
        if autocommit {
          committed := c;
        } else {
          RunSnoc(accepts, committed, pending, s);
          pending := pending + [s];
        }
        ok := true;
    }

    /** `connection.commit()`: the transaction's work becomes visible to every
        session. The server answers COMMIT of an aborted transaction with a
        rollback. */
    method Commit()
      requires Valid()
      modifies this
      ensures Valid() && autocommit == old(autocommit)
      ensures pending == [] && !aborted
      ensures committed == if old(aborted) then old(committed) else old(Current())
    {
      if !aborted {
        committed := Current();
      }
      pending := [];
      aborted := false;
    }

    /** The connection goes away (the script ends): the server rolls back the
        open transaction. */
    method Close()
      requires Valid()
      modifies this
      ensures Valid() && autocommit == old(autocommit)
      ensures committed == old(committed) && pending == [] && !aborted
    {
      pending := [];
      aborted := false;
    }
  }

  /** One more statement run after a prefix that ran. */
  lemma RunNext(accepts: Acceptance, cat: Catalog, ss: seq<Statement>, k: nat)
    requires k < |ss| && Run(accepts, cat, ss[..k]).Some?
    ensures ss[..k + 1] == ss[..k] + [ss[k]]
    ensures Run(accepts, cat, ss[..k + 1]) == Apply(accepts, Run(accepts, cat, ss[..k]).value, ss[k])
  {
    assert ss[..k + 1] == ss[..k] + [ss[k]];
    RunSnoc(accepts, cat, ss[..k], ss[k]);
  }

  /** A prefix that runs, followed by a rejection or by the end of the list,
      is the accepted prefix. */
  lemma AcceptedAt(accepts: Acceptance, cat: Catalog, ss: seq<Statement>, k: nat)
    requires k <= |ss| && Run(accepts, cat, ss[..k]).Some?
    requires k < |ss| ==> Run(accepts, cat, ss[..k + 1]).None?
    ensures Accepted(accepts, cat, ss) == k
  {
    AcceptedIsFirstRejection(accepts, cat, ss, k);
    if k < |ss| {
      AcceptedIsFirstRejection(accepts, cat, ss, k + 1);
    }
  }

  /** `for command in commands: cursor.execute(command)`, up to the first
      statement that raises; `done` counts the statements that ran. */
  method ExecuteEach(conn: Connection, commands: seq<Statement>) returns (done: nat)
    requires conn.Valid() && !conn.aborted
    modifies conn
    ensures conn.Valid() && conn.autocommit == old(conn.autocommit)
    ensures done == Accepted(conn.accepts, old(conn.Current()), commands)
    ensures !conn.aborted ==> conn.Current() == Run(conn.accepts, old(conn.Current()), commands[..done]).value
    ensures old(conn.autocommit) ==> (conn.pending == [] && !conn.aborted &&
      conn.committed == Run(conn.accepts, old(conn.committed), commands[..done]).value)
    ensures !old(conn.autocommit) ==> (conn.committed == old(conn.committed) &&
      conn.pending == old(conn.pending) + commands[..done] &&
      conn.aborted == (done < |commands|))
  {
    ghost var start := conn.Current();
    done := 0;
    while done < |commands|
      invariant done <= |commands|
      invariant conn.Valid() && conn.autocommit == old(conn.autocommit) && !conn.aborted
      invariant Run(conn.accepts, start, commands[..done]) == Some(conn.Current())
      invariant old(conn.autocommit) ==> conn.pending == []
      invariant !old(conn.autocommit) ==> (conn.committed == old(conn.committed) &&
        conn.pending == old(conn.pending) + commands[..done])
    {
      RunNext(conn.accepts, start, commands, done);
      var ok := conn.Execute(commands[done]);
      if !ok {
        AcceptedAt(conn.accepts, start, commands, done);
        return;
      }
      done := done + 1;
    }
    assert commands[..done] == commands;
    AcceptedAt(conn.accepts, start, commands, done);
  }
}
