/** For any list of filters: exactly when pushdown leaves every answer alone. */
module ExactPushdown {
  import opened Options
  import opened Values
  import opened DataFusion
  import opened SqlSyntax
  import opened PostgresTable
  import opened PushdownPlan
  import P = Postgres

  ghost predicate AllStored(server: P.Server, schema: Schema, rows: seq<Row>) {
    forall row | row in rows :: P.Stored(server, schema, row)
  }

  /** On every table the server can hold, pushing these filters under this limit gives the local answer. */
  ghost predicate SafeOnEveryTable(engine: Engine, server: P.Server, t: Source, projected: seq<string>, filters: seq<Expr>, limit: Option<nat>) {
    forall db: P.Database | Hosts(db, t) && AllStored(server, t.schema, RowsOf(db, t)) ::
      AnswerIsLocal(engine, server, db, t, projected, filters, limit, filters, limit)
  }

  // ---- What decides, one row at a time ----

  /** Some row the filters accept is one the pushed `WHERE` drops. */
  ghost predicate DropsAccepted(engine: Engine, server: P.Server, t: Source, filters: seq<Expr>) {
    exists row :: P.Stored(server, t.schema, row) && Accepts(engine, filters, row) && !Keeps(server, t.schema, Pushed(t, filters), row)
  }

  /** Some row the filters reject is one the pushed `WHERE` keeps. */
  ghost predicate KeepsRejected(engine: Engine, server: P.Server, t: Source, filters: seq<Expr>) {
    exists row :: P.Stored(server, t.schema, row) && !Accepts(engine, filters, row) && Keeps(server, t.schema, Pushed(t, filters), row)
  }

  ghost predicate AcceptsSome(engine: Engine, server: P.Server, t: Source, filters: seq<Expr>) {
    exists row :: P.Stored(server, t.schema, row) && Accepts(engine, filters, row)
  }

  /** No accepted row is dropped, and under a limit that travels no rejected row can take the place of an accepted one. */
  ghost predicate Harmless(engine: Engine, server: P.Server, t: Source, filters: seq<Expr>, limit: Option<nat>) {
    || limit == Some(0)
    || (!DropsAccepted(engine, server, t, filters)
        && (PushedLimit(limit, |Pushed(t, filters)|, |filters|) == None
            || !KeepsRejected(engine, server, t, filters) || !AcceptsSome(engine, server, t, filters)))
  }

  lemma StoredRowsConform(server: P.Server, schema: Schema, rows: seq<Row>)
    requires AllStored(server, schema, rows)
    ensures forall i | 0 <= i < |rows| :: Conforms(rows[i], schema)
  {
    forall i | 0 <= i < |rows| ensures Conforms(rows[i], schema) {
      assert rows[i] in rows;
    }
  }

  lemma {:induction false} FilterNone(engine: Engine, fs: seq<Expr>, rows: seq<Row>)
    requires forall row | row in rows :: !Accepts(engine, fs, row)
    ensures Filter(engine, fs, rows) == []
  {
    hide Accepts;
    if rows != [] {
      assert rows[0] in rows;
      FilterNone(engine, fs, rows[1..]);
    }
  }

  /** Harmless filters select, on stored rows, all the query needs. */
  lemma HarmlessSelection(engine: Engine, server: P.Server, t: Source, filters: seq<Expr>, limit: Option<nat>, rows: seq<Row>)
    requires AllStored(server, t.schema, rows) && Harmless(engine, server, t, filters, limit)
    ensures Limit(limit, Filter(engine, filters, Selected(server, t, filters, limit, rows))) == Limit(limit, Filter(engine, filters, rows))
  {
    hide Pushed, P.Where, Filter, Accepts, Keeps, P.Stored;
    var ps := Pushed(t, filters);
    if limit == Some(0) {
    } else if PushedLimit(limit, |ps|, |filters|) == None {
      RefilteringWhereIsIdle(engine, server, t.schema, filters, ps, rows);
    } else if !KeepsRejected(engine, server, t, filters) {
      WhereIsFilterRowByRow(engine, server, t.schema, filters, ps, rows);
      UpstreamLimitIsIdle(engine, filters, limit, rows);
    } else {
      WhereKeepsNoMore(server, t.schema, ps, rows);
      FilterNone(engine, filters, rows);
      FilterNone(engine, filters, Selected(server, t, filters, limit, rows));
    }
  }

  // ---- The tables on which harm shows ----

  /** A dropped row is missing from the answer. */
  lemma DroppedRowIsLost(engine: Engine, server: P.Server, t: Source, filters: seq<Expr>, limit: Option<nat>) returns (rows: seq<Row>)
    requires limit != Some(0) && DropsAccepted(engine, server, t, filters)
    ensures AllStored(server, t.schema, rows)
    ensures Limit(limit, Filter(engine, filters, Selected(server, t, filters, limit, rows))) == []
    ensures |Limit(limit, Filter(engine, filters, rows))| == 1
  {
    hide Pushed, Accepts, Keeps, P.Stored;
    var row :| P.Stored(server, t.schema, row) && Accepts(engine, filters, row) && !Keeps(server, t.schema, Pushed(t, filters), row);
    rows := [row];
    WhereHead(server, t.schema, Pushed(t, filters), rows);
    assert rows[1..] == [];
    assert P.Where(server, t.schema, Pushed(t, filters), rows) == [];
    assert Filter(engine, filters, rows) == [row];
  }

  lemma {:induction false} WhereCopies(server: P.Server, schema: Schema, ps: seq<Predicate>, row: Row, n: nat, more: seq<Row>)
    requires Keeps(server, schema, ps, row)
    ensures P.Where(server, schema, ps, Copies(row, n) + more) == Copies(row, n) + P.Where(server, schema, ps, more)
  {
    hide Keeps;
    var rows, kept := Copies(row, n) + more, P.Where(server, schema, ps, more);
    if n == 0 {
      assert rows == more;
    } else {
      WhereCopies(server, schema, ps, row, n - 1, more);
      assert rows[0] == row && rows[1..] == Copies(row, n - 1) + more;
      WhereHead(server, schema, ps, rows);
      hide P.Where;
      assert Copies(row, n) == [row] + Copies(row, n - 1);
      Reassociate([row], Copies(row, n - 1), kept);
    }
  }

  /** Under a limit, rejected rows that PostgreSQL keeps crowd out the row the query asks for. */
  lemma RejectedRowsCrowdOut(engine: Engine, server: P.Server, t: Source, filters: seq<Expr>, n: nat) returns (rows: seq<Row>)
    requires n > 0 && PushedLimit(Some(n), |Pushed(t, filters)|, |filters|) != None
    requires KeepsRejected(engine, server, t, filters) && AcceptsSome(engine, server, t, filters)
    ensures AllStored(server, t.schema, rows)
    ensures Limit(Some(n), Filter(engine, filters, Selected(server, t, filters, Some(n), rows))) == []
    ensures |Limit(Some(n), Filter(engine, filters, rows))| == 1
  {
    hide Pushed, Accepts, Keeps, P.Stored, P.Where;
    var ps := Pushed(t, filters);
    var low :| P.Stored(server, t.schema, low) && !Accepts(engine, filters, low) && Keeps(server, t.schema, ps, low);
    var high :| P.Stored(server, t.schema, high) && Accepts(engine, filters, high);
    rows := Copies(low, n) + [high];
    WhereCopies(server, t.schema, ps, low, n, [high]);
    LimitPastAnUnseenFilterLosesRows(engine, filters, low, high, n);
    assert P.Take(Some(n), Copies(low, n) + P.Where(server, t.schema, ps, [high])) == P.Take(Some(n), rows);
  }

  /** A table that answers at all but differs, for filters that are not harmless. */
  lemma HarmfulTable(engine: Engine, server: P.Server, t: Source, projected: seq<string>, filters: seq<Expr>, limit: Option<nat>)
    returns (db: P.Database)
    requires LegalSource(t) && projected != [] && InSchema(projected, t.schema) && Covers(projected, filters)
    requires !Harmless(engine, server, t, filters, limit)
    ensures Hosts(db, t) && AllStored(server, t.schema, RowsOf(db, t))
    ensures !AnswerIsLocal(engine, server, db, t, projected, filters, limit, filters, limit)
  {
    hide AnswerIsLocal, Selected, Filter, LegalSource, InSchema, Covers, DropsAccepted, KeepsRejected, AcceptsSome, P.Stored, Conforms;
    var rows;
    if DropsAccepted(engine, server, t, filters) {
      rows := DroppedRowIsLost(engine, server, t, filters, limit);
    } else {
      rows := RejectedRowsCrowdOut(engine, server, t, filters, limit.value);
    }
    db := TableOf(t, rows);
    StoredRowsConform(server, t.schema, rows);
    AnswerIsLocalWhenSelectionIs(engine, server, db, t, projected, filters, limit, filters, limit);
  }

  /** A database of just this table. */
  function TableOf(t: Source, rows: seq<Row>): P.Database {
    map[(t.schemaName, t.tableName) := P.Table(t.schema, rows)]
  }

  lemma RefusedTable(engine: Engine, server: P.Server, t: Source, projected: seq<string>, filters: seq<Expr>, limit: Option<nat>)
    requires LegalSource(t) && projected != [] && InSchema(projected, t.schema) && Covers(projected, filters)
    requires P.RefusesSome(server, t.schema, Pushed(t, filters))
    ensures !SafeOnEveryTable(engine, server, t, projected, filters, limit)
  {
    hide AnswerIsLocal, P.RefusesSome, Pushed, LegalSource, InSchema, Covers;
    var db := TableOf(t, []);
    AnswerIsLocalWhenSelectionIs(engine, server, db, t, projected, filters, limit, filters, limit);
    assert Hosts(db, t) && AllStored(server, t.schema, RowsOf(db, t));
  }

  /**
   For every list of filters, translated or not, of any types, and every server,
   table description and limit: pushdown gives the local answer on every table the
   server can hold, exactly when PostgreSQL takes the pushed constants and the
   filters are harmless, which no more than two rows can show.
   */
  lemma PushdownIsSafeExactlyWhenHarmless(engine: Engine, server: P.Server, t: Source, projected: seq<string>, filters: seq<Expr>, limit: Option<nat>)
    requires LegalSource(t) && projected != [] && InSchema(projected, t.schema) && Covers(projected, filters)
    ensures SafeOnEveryTable(engine, server, t, projected, filters, limit) <==>
      !P.RefusesSome(server, t.schema, Pushed(t, filters)) && Harmless(engine, server, t, filters, limit)
  {
    hide AnswerIsLocal, Selected, Pushed, Filter, P.ProjectAll, P.RefusesSome, LegalSource, InSchema, Covers, Harmless, AllStored, Conforms;
    if P.RefusesSome(server, t.schema, Pushed(t, filters)) {
      RefusedTable(engine, server, t, projected, filters, limit);
    } else if Harmless(engine, server, t, filters, limit) {
      forall db: P.Database | Hosts(db, t) && AllStored(server, t.schema, RowsOf(db, t))
        ensures AnswerIsLocal(engine, server, db, t, projected, filters, limit, filters, limit)
      {
        HarmlessSelection(engine, server, t, filters, limit, RowsOf(db, t));
        AnswerIsLocalWhenSelectionIs(engine, server, db, t, projected, filters, limit, filters, limit);
      }
    } else {
      var db := HarmfulTable(engine, server, t, projected, filters, limit);
    }
  }
}
