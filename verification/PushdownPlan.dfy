/** The scan and the local plan above it, together: pushdown changes no answer. */
module PushdownPlan {
  import opened Options
  import opened Values
  import opened DataFusion
  import opened Pushdown
  import opened PushdownText
  import opened PushdownMeaning
  import opened SqlSyntax
  import opened PostgresTable
  import opened ScanText
  import P = Postgres

  // ---- What is asked of the table, its names and the filters ----

  /**
   The database holds the table the source describes. It may have columns the
   source does not show: those of types Arrow has no field for.
   */
  ghost predicate Hosts(db: P.Database, t: Source) {
    && (t.schemaName, t.tableName) in db
    && SameTypes(db[(t.schemaName, t.tableName)].schema, t.schema)
    && forall i | 0 <= i < |db[(t.schemaName, t.tableName)].rows| :: Conforms(db[(t.schemaName, t.tableName)].rows[i], t.schema)
  }

  function RowsOf(db: P.Database, t: Source): seq<Row>
    requires (t.schemaName, t.tableName) in db
  {
    db[(t.schemaName, t.tableName)].rows
  }

  /** Names PostgreSQL itself gave the table and its columns. */
  ghost predicate LegalSource(t: Source) {
    && LegalName(t.schemaName) && LegalName(t.tableName)
    && forall i | 0 <= i < |t.schema| :: LegalName(t.schema[i].name)
  }

  ghost predicate AllComparable(filters: seq<Expr>, schema: Schema) {
    forall f | f in filters :: Comparable(f, schema)
  }

  /** Asked of the translated filters alone: DataFusion typed them, and none excludes values of a text-like column. */
  ghost predicate PushesSupersets(filters: seq<Expr>, schema: Schema) {
    forall f | f in filters && TranslateFilter(f, schema).Some? :: WellTyped(f, schema) && ExcludesNoTextLike(f, schema)
  }

  ghost predicate PushesPlainTests(filters: seq<Expr>, schema: Schema) {
    forall f | f in filters && TranslateFilter(f, schema).Some? :: ComparesPlainColumns(f, schema)
  }

  /** A positive limit may travel only past filters on which both engines decide alike. */
  ghost predicate SafeToPush(t: Source, filters: seq<Expr>, limit: Option<nat>) {
    t.filterPushdown ==>
      && PushesSupersets(filters, t.schema)
      && (limit == None || limit == Some(0) || PushesPlainTests(filters, t.schema)
          || exists f | f in filters :: TranslateFilter(f, t.schema).None?)
  }

  /** The projection keeps every column a filter above the scan reads. */
  ghost predicate Covers(projected: seq<string>, filters: seq<Expr>) {
    forall f, c | f in filters && c in ColumnsOf(f) :: c in projected
  }

  ghost predicate InSchema(projected: seq<string>, schema: Schema) {
    forall c | c in projected :: HasColumn(schema, c)
  }

  // ---- Filtering ----

  lemma {:induction false} RefilteringIsIdle(engine: Engine, fs: seq<Expr>, gs: seq<Expr>, rows: seq<Row>)
    requires forall g | g in gs :: g in fs
    ensures Filter(engine, fs, Filter(engine, gs, rows)) == Filter(engine, fs, rows)
  {
    if rows != [] {
      RefilteringIsIdle(engine, fs, gs, rows[1..]);
      var kept := Filter(engine, gs, rows[1..]);
      if Accepts(engine, gs, rows[0]) {
        assert Filter(engine, gs, rows) == [rows[0]] + kept;
        assert ([rows[0]] + kept)[1..] == kept;
      } else {
        assert [] + kept == kept;
        assert !Accepts(engine, fs, rows[0]);
      }
    }
  }

  lemma {:induction false} FilterKeepsAccepted(engine: Engine, fs: seq<Expr>, rows: seq<Row>)
    requires forall i | 0 <= i < |rows| :: Accepts(engine, fs, rows[i])
    ensures Filter(engine, fs, rows) == rows
  {
    if rows != [] {
      FilterKeepsAccepted(engine, fs, rows[1..]);
    }
  }

  lemma {:induction false} FilterAccepts(engine: Engine, fs: seq<Expr>, rows: seq<Row>)
    ensures forall i | 0 <= i < |Filter(engine, fs, rows)| :: Accepts(engine, fs, Filter(engine, fs, rows)[i])
    ensures |Filter(engine, fs, rows)| <= |rows|
  {
    if rows != [] {
      FilterAccepts(engine, fs, rows[1..]);
    }
  }

  /** With every filter applied upstream, an upstream limit cuts nothing the query needs. */
  lemma UpstreamLimitIsIdle(engine: Engine, fs: seq<Expr>, limit: Option<nat>, rows: seq<Row>)
    ensures Limit(limit, Filter(engine, fs, P.Take(limit, Filter(engine, fs, rows)))) == Limit(limit, Filter(engine, fs, rows))
  {
    FilterAccepts(engine, fs, rows);
    FilterKeepsAccepted(engine, fs, P.Take(limit, Filter(engine, fs, rows)));
  }

  // ---- Projection ----

  lemma ProjectionKeepsAcceptance(engine: Engine, fs: seq<Expr>, projected: seq<string>, row: Row)
    requires Covers(projected, fs)
    ensures Accepts(engine, fs, P.Project(projected, row)) <==> Accepts(engine, fs, row)
  {
    hide Eval;
    forall f | f in fs ensures Eval(engine, f, P.Project(projected, row)) == Eval(engine, f, row) {
      EvalReadsOnlyItsColumns(engine, f, P.Project(projected, row), row);
    }
  }

  lemma {:induction false} FilterCommutesWithProjection(engine: Engine, fs: seq<Expr>, projected: seq<string>, rows: seq<Row>)
    requires Covers(projected, fs)
    ensures Filter(engine, fs, P.ProjectAll(projected, rows)) == P.ProjectAll(projected, Filter(engine, fs, rows))
  {
    hide Eval, Accepts;
    if rows != [] {
      ProjectionKeepsAcceptance(engine, fs, projected, rows[0]);
      FilterCommutesWithProjection(engine, fs, projected, rows[1..]);
      assert P.ProjectAll(projected, rows)[1..] == P.ProjectAll(projected, rows[1..]);
    }
  }

  // ---- What the server keeps ----

  /** The filters a scan translates. */
  function Translated(filters: seq<Expr>, schema: Schema): seq<Expr> {
    if filters == [] then []
    else (if TranslateFilter(filters[0], schema).Some? then [filters[0]] else []) + Translated(filters[1..], schema)
  }

  lemma TranslatesWhenIntended(f: Expr, schema: Schema)
    ensures TranslateFilter(f, schema).Some? <==> Intended(f, schema).Some?
  {
    FragmentReads(f, schema, "");
  }

  lemma {:induction false} TranslatedAreIntended(filters: seq<Expr>, schema: Schema)
    ensures |IntendedAll(filters, schema)| == |Translated(filters, schema)|
    ensures forall i | 0 <= i < |Translated(filters, schema)| ::
      Intended(Translated(filters, schema)[i], schema) == Some(IntendedAll(filters, schema)[i])
  {
    hide TranslateFilter, Intended;
    if filters != [] {
      TranslatedAreIntended(filters[1..], schema);
      TranslatesWhenIntended(filters[0], schema);
    }
  }

  lemma {:induction false} TranslatedAreSome(filters: seq<Expr>, schema: Schema)
    ensures |Translated(filters, schema)| <= |filters|
    ensures forall f | f in Translated(filters, schema) :: f in filters
    ensures |Translated(filters, schema)| == |filters| ==> Translated(filters, schema) == filters
    ensures |Translated(filters, schema)| == |filters| <==> forall f | f in filters :: TranslateFilter(f, schema).Some?
  {
    hide TranslateFilter;
    if filters != [] {
      var rest := filters[1..];
      TranslatedAreSome(rest, schema);
      assert filters == [filters[0]] + rest;
      if forall f | f in filters :: TranslateFilter(f, schema).Some? {
        assert filters[0] in filters;
        forall f | f in rest ensures TranslateFilter(f, schema).Some? {
          assert f in filters;
        }
      } else {
        var f :| f in filters && TranslateFilter(f, schema).None?;
        assert f == filters[0] || f in rest;
      }
    }
  }

  /** A conjunction is true exactly when each conjunct is. */
  lemma {:induction false} ConjunctionIsTrue(server: P.Server, schema: Schema, ps: seq<Predicate>, row: Row)
    requires ps != []
    ensures P.Test(server, schema, Conjunction(ps), row) == True
       <==> forall i | 0 <= i < |ps| :: P.Test(server, schema, ps[i], row) == True
  {
    if |ps| > 1 {
      ConjunctionIsTrue(server, schema, ps[..|ps| - 1], row);
    }
  }

  /** The rows a pushed `WHERE` lets through. */
  predicate Keeps(server: P.Server, schema: Schema, ps: seq<Predicate>, row: Row) {
    forall p | p in ps :: P.Test(server, schema, p, row) == True
  }

  lemma WhereHead(server: P.Server, schema: Schema, ps: seq<Predicate>, rows: seq<Row>)
    requires rows != []
    ensures P.Where(server, schema, ps, rows)
         == (if Keeps(server, schema, ps, rows[0]) then [rows[0]] else []) + P.Where(server, schema, ps, rows[1..])
  {
    hide P.Test;
    if ps != [] {
      ConjunctionIsTrue(server, schema, ps, rows[0]);
    }
  }

  /** When the conjuncts keep just the rows the filters accept, `WHERE` is the local filter. */
  lemma {:induction false} WhereIsFilterRowByRow(engine: Engine, server: P.Server, schema: Schema, fs: seq<Expr>, ps: seq<Predicate>, rows: seq<Row>)
    requires forall row | row in rows :: Accepts(engine, fs, row) <==> Keeps(server, schema, ps, row)
    ensures P.Where(server, schema, ps, rows) == Filter(engine, fs, rows)
  {
    hide Accepts, Keeps;
    if rows != [] {
      assert rows[0] in rows && forall row | row in rows[1..] :: row in rows;
      WhereIsFilterRowByRow(engine, server, schema, fs, ps, rows[1..]);
      WhereHead(server, schema, ps, rows);
    }
  }

  /** The pushed `WHERE` keeps exactly the rows the translated filters accept. */
  lemma WhereIsFilter(engine: Engine, server: P.Server, schema: Schema, fs: seq<Expr>, ps: seq<Predicate>, rows: seq<Row>)
    requires P.Deterministic(server)
    requires |fs| == |ps| && forall i | 0 <= i < |fs| :: Intended(fs[i], schema) == Some(ps[i])
    requires AllComparable(fs, schema) && forall i | 0 <= i < |rows| :: Conforms(rows[i], schema)
    ensures P.Where(server, schema, ps, rows) == Filter(engine, fs, rows)
  {
    hide Eval, P.Test, Comparable, Conforms, Intended;
    forall row | row in rows ensures Accepts(engine, fs, row) <==> Keeps(server, schema, ps, row) {
      forall i | 0 <= i < |fs| ensures Eval(engine, fs[i], row) == Boolean(true) <==> P.Test(server, schema, ps[i], row) == True {
        assert fs[i] in fs;
        IntendedMeansTheSame(engine, server, schema, fs[i], row);
      }
      KeptPointwise(engine, server, schema, fs, ps, row);
    }
    WhereIsFilterRowByRow(engine, server, schema, fs, ps, rows);
  }

  lemma KeptPointwise(engine: Engine, server: P.Server, schema: Schema, fs: seq<Expr>, ps: seq<Predicate>, row: Row)
    requires |fs| == |ps|
    requires forall i | 0 <= i < |fs| :: Eval(engine, fs[i], row) == Boolean(true) <==> P.Test(server, schema, ps[i], row) == True
    ensures Accepts(engine, fs, row) <==> Keeps(server, schema, ps, row)
  {
    hide Eval, P.Test;
    if Accepts(engine, fs, row) {
      forall i | 0 <= i < |ps| ensures P.Test(server, schema, ps[i], row) == True {
        assert fs[i] in fs;
      }
    }
    if Keeps(server, schema, ps, row) {
      forall i | 0 <= i < |fs| ensures Eval(engine, fs[i], row) == Boolean(true) {
        assert ps[i] in ps;
      }
    }
  }

  // ---- What the server keeps, filtered again ----

  /** A `WHERE` that keeps every accepted row loses nothing to the filters above it. */
  lemma {:induction false} RefilteringWhereIsIdle(engine: Engine, server: P.Server, schema: Schema, filters: seq<Expr>,
                                                  ps: seq<Predicate>, rows: seq<Row>)
    requires forall row | row in rows && Accepts(engine, filters, row) :: Keeps(server, schema, ps, row)
    ensures Filter(engine, filters, P.Where(server, schema, ps, rows)) == Filter(engine, filters, rows)
  {
    hide Keeps, Accepts;
    if rows != [] {
      var head, rest := rows[0], rows[1..];
      assert head in rows && forall row | row in rest :: row in rows;
      RefilteringWhereIsIdle(engine, server, schema, filters, ps, rest);
      var kept := P.Where(server, schema, ps, rest);
      WhereHead(server, schema, ps, rows);
      if Keeps(server, schema, ps, head) {
        assert ([head] + kept)[0] == head && ([head] + kept)[1..] == kept;
      } else {
        assert [] + kept == kept;
      }
    }
  }

  lemma {:induction false} WhereKeepsNoMore(server: P.Server, schema: Schema, ps: seq<Predicate>, rows: seq<Row>)
    ensures |P.Where(server, schema, ps, rows)| <= |rows|
    ensures ps == [] ==> P.Where(server, schema, ps, rows) == rows
    ensures forall row | row in P.Where(server, schema, ps, rows) :: row in rows
  {
    if rows != [] {
      WhereKeepsNoMore(server, schema, ps, rows[1..]);
    }
  }

  /** The pushed `WHERE` keeps every row that all of `filters`, a list with the pushed ones in it, accept. */
  lemma WhereKeepsAccepted(engine: Engine, server: P.Server, schema: Schema, handed: seq<Expr>, filters: seq<Expr>, rows: seq<Row>)
    requires P.Deterministic(server) && P.EquatesSoundly(server)
    requires PushesSupersets(handed, schema) && (forall f | f in handed :: f in filters)
    requires forall i | 0 <= i < |rows| :: Conforms(rows[i], schema)
    ensures Filter(engine, filters, P.Where(server, schema, IntendedAll(handed, schema), rows)) == Filter(engine, filters, rows)
  {
    hide TranslateFilter, Intended, Eval, P.Test, WellTyped, ExcludesNoTextLike, P.Where, Filter;
    var fs, ps := Translated(handed, schema), IntendedAll(handed, schema);
    TranslatedAreIntended(handed, schema);
    TranslatedAreSome(handed, schema);
    forall row | row in rows && Accepts(engine, filters, row) ensures Keeps(server, schema, ps, row) {
      forall i | 0 <= i < |ps| ensures P.Test(server, schema, ps[i], row) == True {
        assert fs[i] in fs;
        TranslatesWhenIntended(fs[i], schema);
        TakenTestKeepsAccepted(engine, server, schema, fs[i], row);
      }
    }
    RefilteringWhereIsIdle(engine, server, schema, filters, ps, rows);
  }

  // ---- The rows a scan's statement selects ----

  /** The conjuncts a scan pushes. */
  function Pushed(t: Source, filters: seq<Expr>): seq<Predicate> {
    if t.filterPushdown then IntendedAll(filters, t.schema) else []
  }

  function Selected(server: P.Server, t: Source, filters: seq<Expr>, limit: Option<nat>, rows: seq<Row>): seq<Row> {
    P.Take(PushedLimit(limit, |Pushed(t, filters)|, |filters|), P.Where(server, t.schema, Pushed(t, filters), rows))
  }

  lemma NamesAreLegal(t: Source, projected: seq<string>, filters: seq<Expr>, limit: Option<nat>)
    requires LegalSource(t) && InSchema(projected, t.schema)
    ensures LegalStatement(IntendedScan(t, projected, filters, limit))
    ensures forall p, c | p in Pushed(t, filters) && c in P.ColumnsNamed(p) :: HasColumn(t.schema, c)
  {
    hide TranslateFilter, Intended;
    var ps := IntendedAll(filters, t.schema);
    TranslatedAreIntended(filters, t.schema);
    forall p | p in ps ensures LegalNames(p) && forall c | c in P.ColumnsNamed(p) :: HasColumn(t.schema, c) {
      var i :| 0 <= i < |ps| && ps[i] == p;
      var f := Translated(filters, t.schema)[i];
      LegalNamesAreTheColumns(f, t.schema);
    }
  }

  /** What PostgreSQL answers to the emitted text, on both forms, whatever the filters: nothing exactly if it refuses one that is pushed. */
  lemma ScanAnswers(server: P.Server, db: P.Database, t: Source, projected: seq<string>, filters: seq<Expr>, limit: Option<nat>)
    requires Hosts(db, t) && LegalSource(t) && InSchema(projected, t.schema)
    ensures var rows := Selected(server, t, filters, limit, RowsOf(db, t));
      P.Answers(server, db, ScanSql(t, projected, filters, limit))
      == if P.RefusesSome(server, t.schema, Pushed(t, filters)) then None
         else Some(if projected == [] then P.Count(|rows|) else P.Rows(P.ProjectAll(projected, rows)))
  {
    hide ReadStatement, ScanSql, LegalStatement, P.Where, P.RefusesSome, Conforms, TypeOf, IntendedAll;
    NamesAreLegal(t, projected, filters, limit);
    StatementReadsBack(t, projected, filters, limit);
    P.RefusesSomeDependsOnTypes(server, db[(t.schemaName, t.tableName)].schema, t.schema, Pushed(t, filters));
    P.WhereDependsOnTypes(server, db[(t.schemaName, t.tableName)].schema, t.schema, Pushed(t, filters), RowsOf(db, t));
  }

  /** Without pushdown nothing is asked of the server or the filters. */
  lemma UnpushedSelectionLosesNothing(engine: Engine, server: P.Server, t: Source, filters: seq<Expr>, limit: Option<nat>, rows: seq<Row>)
    requires !t.filterPushdown
    ensures Limit(limit, Filter(engine, filters, Selected(server, t, filters, limit, rows)))
         == Limit(limit, Filter(engine, filters, rows))
  {
    hide P.Where;
    WhereKeepsNoMore(server, t.schema, [], rows);
    FilterKeepsAccepted(engine, [], rows);
    UpstreamLimitIsIdle(engine, [], limit, rows);
  }

  /** Filtering and limiting what the scan selected is filtering and limiting the table. */
  lemma SelectionLosesNothing(engine: Engine, server: P.Server, t: Source, filters: seq<Expr>, limit: Option<nat>, rows: seq<Row>)
    requires P.Deterministic(server) && P.EquatesSoundly(server)
    requires SafeToPush(t, filters, limit) && forall i | 0 <= i < |rows| :: Conforms(rows[i], t.schema)
    ensures Limit(limit, Filter(engine, filters, Selected(server, t, filters, limit, rows)))
         == Limit(limit, Filter(engine, filters, rows))
  {
    hide TranslateFilter, Intended, WellTyped, ExcludesNoTextLike, ComparesPlainColumns, P.Where, Filter, Conforms;
    TranslatedAreIntended(filters, t.schema);
    TranslatedAreSome(filters, t.schema);
    if !t.filterPushdown {
      UnpushedSelectionLosesNothing(engine, server, t, filters, limit, rows);
    } else {
      WhereKeepsAccepted(engine, server, t.schema, filters, filters, rows);
      if |Translated(filters, t.schema)| == |filters| && limit != Some(0) && limit != None {
        assert AllComparable(filters, t.schema);
        WhereIsFilter(engine, server, t.schema, filters, IntendedAll(filters, t.schema), rows);
        UpstreamLimitIsIdle(engine, filters, limit, rows);
      }
    }
  }

  // ---- The answer of a scan under its local plan ----

  /** PostgreSQL's answer to the emitted text, then filtered and limited locally, is the table filtered, limited and projected locally. */
  ghost predicate AnswerIsLocal(engine: Engine, server: P.Server, db: P.Database, t: Source, projected: seq<string>,
                                handed: seq<Expr>, offered: Option<nat>, filters: seq<Expr>, limit: Option<nat>)
    requires (t.schemaName, t.tableName) in db
  {
    var answer := P.Answers(server, db, ScanSql(t, projected, handed, offered));
    && answer.Some? && answer.value.Rows?
    && Limit(limit, Filter(engine, filters, answer.value.rows))
       == P.ProjectAll(projected, Limit(limit, Filter(engine, filters, RowsOf(db, t))))
  }

  /** With the filters' columns projected, the constants and the selected rows decide. */
  lemma AnswerIsLocalWhenSelectionIs(engine: Engine, server: P.Server, db: P.Database, t: Source, projected: seq<string>,
                                     handed: seq<Expr>, offered: Option<nat>, filters: seq<Expr>, limit: Option<nat>)
    requires Hosts(db, t) && LegalSource(t)
    requires projected != [] && InSchema(projected, t.schema) && Covers(projected, filters)
    ensures AnswerIsLocal(engine, server, db, t, projected, handed, offered, filters, limit) <==>
      && !P.RefusesSome(server, t.schema, Pushed(t, handed))
      && P.ProjectAll(projected, Limit(limit, Filter(engine, filters, Selected(server, t, handed, offered, RowsOf(db, t)))))
         == P.ProjectAll(projected, Limit(limit, Filter(engine, filters, RowsOf(db, t))))
  {
    hide P.RefusesSome, Pushed, P.Answers, ScanSql, Selected, Filter, P.ProjectAll, InSchema, Conforms, LegalSource;
    ScanAnswers(server, db, t, projected, handed, offered);
    var rows := Selected(server, t, handed, offered, RowsOf(db, t));
    FilterCommutesWithProjection(engine, filters, projected, rows);
    LimitCommutesWithProjection(limit, projected, Filter(engine, filters, rows));
  }

  /**
   Pushdown changes no answer: PostgreSQL's rows for the emitted text, filtered and
   limited locally, are the table filtered, limited and projected locally, in the
   same order. It holds for every table, filter list and limit, with pushdown on or
   off and under every collation, exactly if PostgreSQL takes the pushed constants;
   only what is pushed is asked to be `SafeToPush`.
   */
  lemma PushdownChangesNoAnswer(engine: Engine, server: P.Server, db: P.Database, t: Source, projected: seq<string>,
                                filters: seq<Expr>, limit: Option<nat>)
    requires P.Deterministic(server) && P.EquatesSoundly(server)
    requires Hosts(db, t) && LegalSource(t) && SafeToPush(t, filters, limit)
    requires projected != [] && InSchema(projected, t.schema) && Covers(projected, filters)
    ensures AnswerIsLocal(engine, server, db, t, projected, filters, limit, filters, limit)
       <==> !P.RefusesSome(server, t.schema, Pushed(t, filters))
  {
    hide AnswerIsLocal, Selected, SafeToPush, Filter, P.ProjectAll, InSchema, LegalSource, Covers, Conforms, P.RefusesSome, Pushed;
    SelectionLosesNothing(engine, server, t, filters, limit, RowsOf(db, t));
    AnswerIsLocalWhenSelectionIs(engine, server, db, t, projected, filters, limit, filters, limit);
  }

  /** What refusal costs: with pushdown on the query has no answer, with pushdown off the local one. */
  lemma RefusedPushdownLosesTheAnswer(engine: Engine, server: P.Server, db: P.Database, t: Source, projected: seq<string>,
                                      filters: seq<Expr>, limit: Option<nat>)
    requires Hosts(db, t) && LegalSource(t) && t.filterPushdown && P.RefusesSome(server, t.schema, Pushed(t, filters))
    requires projected != [] && InSchema(projected, t.schema) && Covers(projected, filters)
    ensures P.Answers(server, db, ScanSql(t, projected, filters, limit)) == None
    ensures AnswerIsLocal(engine, server, db, t.(filterPushdown := false), projected, filters, limit, filters, limit)
  {
    hide AnswerIsLocal, P.Answers, ScanSql, Selected, Filter, P.ProjectAll, InSchema, LegalSource, Covers, Conforms;
    ScanAnswers(server, db, t, projected, filters, limit);
    var off := t.(filterPushdown := false);
    assert LegalSource(off) by {
      LegalWhicheverPushdown(t);
    }
    UnpushedSelectionLosesNothing(engine, server, off, filters, limit, RowsOf(db, off));
    AnswerIsLocalWhenSelectionIs(engine, server, db, off, projected, filters, limit, filters, limit);
  }

  lemma LegalWhicheverPushdown(t: Source)
    requires LegalSource(t)
    ensures LegalSource(t.(filterPushdown := false)) && LegalSource(t.(filterPushdown := true))
  {
  }

  lemma LimitCommutesWithProjection(limit: Option<nat>, projected: seq<string>, rows: seq<Row>)
    ensures Limit(limit, P.ProjectAll(projected, rows)) == P.ProjectAll(projected, Limit(limit, rows))
  {
  }

  // ---- The whole query: classification, scan, residual filters ----

  lemma {:induction false} HandedAreSome(t: Source, filters: seq<Expr>)
    ensures forall f | f in HandedToScan(t, filters) :: f in filters && t.filterPushdown && TranslateFilter(f, t.schema).Some?
    ensures forall f | f in filters && Classify(t, f) == Inexact :: f in HandedToScan(t, filters)
    ensures |HandedToScan(t, filters)| <= |filters|
    ensures |HandedToScan(t, filters)| == |filters| ==> HandedToScan(t, filters) == filters
  {
    hide TranslateFilter;
    if filters != [] {
      HandedAreSome(t, filters[1..]);
      assert filters == [filters[0]] + filters[1..];
    }
  }

  /**
   A planner may offer the scan a limit only if the scan sees every filter. Then
   for the filters the provider classified, the query's answer is the local one,
   exactly if PostgreSQL takes the pushed constants.
   */
  lemma QueryIsUnchangedByPushdown(engine: Engine, server: P.Server, db: P.Database, t: Source, projected: seq<string>,
                                   filters: seq<Expr>, limit: Option<nat>, offered: Option<nat>)
    requires P.Deterministic(server) && P.EquatesSoundly(server)
    requires Hosts(db, t) && LegalSource(t) && SafeToPush(t, filters, offered)
    requires projected != [] && InSchema(projected, t.schema) && Covers(projected, filters)
    requires offered == None || (offered == limit && |HandedToScan(t, filters)| == |filters|)
    ensures AnswerIsLocal(engine, server, db, t, projected, HandedToScan(t, filters), offered, filters, limit)
       <==> !P.RefusesSome(server, t.schema, Pushed(t, HandedToScan(t, filters)))
  {
    hide P.RefusesSome, Pushed, AnswerIsLocal, Filter, P.ProjectAll, InSchema, LegalSource, Covers, Conforms, TranslateFilter, Selected;
    var handed := HandedToScan(t, filters);
    HandedAreSome(t, filters);
    if offered == limit && handed == filters {
      PushdownChangesNoAnswer(engine, server, db, t, projected, filters, limit);
    } else {
      UnlimitedSelectionLosesNothing(engine, server, t, handed, filters, RowsOf(db, t));
      AnswerIsLocalWhenSelectionIs(engine, server, db, t, projected, handed, None, filters, limit);
    }
  }

  /** A scan without a limit keeps every row a longer filter list accepts. */
  lemma UnlimitedSelectionLosesNothing(engine: Engine, server: P.Server, t: Source, handed: seq<Expr>, filters: seq<Expr>, rows: seq<Row>)
    requires P.Deterministic(server) && P.EquatesSoundly(server)
    requires t.filterPushdown ==> PushesSupersets(handed, t.schema)
    requires (forall f | f in handed :: f in filters) && forall i | 0 <= i < |rows| :: Conforms(rows[i], t.schema)
    ensures Filter(engine, filters, Selected(server, t, handed, None, rows)) == Filter(engine, filters, rows)
  {
    hide PushesSupersets, Filter, P.Where, Conforms;
    if t.filterPushdown {
      WhereKeepsAccepted(engine, server, t.schema, handed, filters, rows);
    } else {
      WhereKeepsNoMore(server, t.schema, [], rows);
    }
  }

  // ---- The limit rule, the rows fetched, and the count form ----

  /** The emitted statement carries a limit exactly when there is one and every filter was translated. */
  lemma LimitTravelsExactlyWhenAllTranslate(t: Source, projected: seq<string>, filters: seq<Expr>, limit: Option<nat>)
    ensures IntendedScan(t, projected, filters, limit).limit
         == if filters == [] || (t.filterPushdown && forall f | f in filters :: TranslateFilter(f, t.schema).Some?) then limit else None
  {
    hide TranslateFilter, Intended;
    TranslatedAreIntended(filters, t.schema);
    TranslatedAreSome(filters, t.schema);
    if filters != [] {
      assert filters[0] in filters;
    }
  }

  function Copies(row: Row, n: nat): seq<Row> {
    seq(n, i => row)
  }

  lemma {:induction false} FilterCopies(engine: Engine, fs: seq<Expr>, row: Row, n: nat, more: seq<Row>)
    requires !Accepts(engine, fs, row)
    ensures Filter(engine, fs, Copies(row, n) + more) == Filter(engine, fs, more)
  {
    if n == 0 {
      assert Copies(row, 0) + more == more;
    } else {
      var rest := Copies(row, n - 1) + more;
      FilterCopies(engine, fs, row, n - 1, more);
      assert (Copies(row, n) + more)[0] == row && (Copies(row, n) + more)[1..] == rest;
      assert [] + Filter(engine, fs, rest) == Filter(engine, fs, rest);
    }
  }

  /**
   The rule is needed: for all filters that tell two rows apart and every positive
   limit, a limit before the filters can lose the whole answer.
   */
  lemma LimitPastAnUnseenFilterLosesRows(engine: Engine, filters: seq<Expr>, low: Row, high: Row, n: nat)
    requires n > 0 && !Accepts(engine, filters, low) && Accepts(engine, filters, high)
    ensures var rows := Copies(low, n) + [high];
      && Limit(Some(n), Filter(engine, filters, P.Take(Some(n), rows))) == []
      && Limit(Some(n), Filter(engine, filters, rows)) == [high]
  {
    hide Accepts;
    var rows := Copies(low, n) + [high];
    assert P.Take(Some(n), rows) == Copies(low, n) + [];
    FilterCopies(engine, filters, low, n, []);
    FilterCopies(engine, filters, low, n, [high]);
    assert [high][1..] == [];
  }

  /** A scan with pushdown, unless refused, never fetches more rows than the same scan without, whatever the filters. */
  lemma PushdownFetchesNoMore(server: P.Server, db: P.Database, t: Source, projected: seq<string>, filters: seq<Expr>, limit: Option<nat>)
    requires Hosts(db, t) && LegalSource(t) && projected != [] && InSchema(projected, t.schema)
    ensures var on := P.Answers(server, db, ScanSql(t.(filterPushdown := true), projected, filters, limit));
      var off := P.Answers(server, db, ScanSql(t.(filterPushdown := false), projected, filters, limit));
      && off.Some? && off.value.Rows?
      && (on.None? <==> P.RefusesSome(server, t.schema, IntendedAll(filters, t.schema)))
      && (on.Some? ==> on.value.Rows? && |on.value.rows| <= |off.value.rows|)
  {
    hide P.Answers, ScanSql, P.Where, IntendedAll, P.Refuses;
    var t1, t0 := t.(filterPushdown := true), t.(filterPushdown := false);
    ScanAnswers(server, db, t1, projected, filters, limit);
    ScanAnswers(server, db, t0, projected, filters, limit);
    WhereKeepsNoMore(server, t.schema, Pushed(t1, filters), RowsOf(db, t));
    WhereKeepsNoMore(server, t.schema, [], RowsOf(db, t));
    TranslatedAreIntended(filters, t.schema);
    TranslatedAreSome(filters, t.schema);
  }

  /** The `COUNT(*)` form reports the number of rows the column form returns, and fails with it, whatever the filters. */
  lemma CountFormCountsTheColumnForm(server: P.Server, db: P.Database, t: Source, projected: seq<string>, filters: seq<Expr>, limit: Option<nat>)
    requires Hosts(db, t) && LegalSource(t) && projected != [] && InSchema(projected, t.schema)
    ensures var counted := P.Answers(server, db, ScanSql(t, [], filters, limit));
      var listed := P.Answers(server, db, ScanSql(t, projected, filters, limit));
      && (listed.None? <==> P.RefusesSome(server, t.schema, Pushed(t, filters)))
      && (listed.None? ==> counted == None)
      && (listed.Some? ==> listed.value.Rows? && counted == Some(P.Count(|listed.value.rows|)))
  {
    hide P.Answers, ScanSql, Selected, P.RefusesSome;
    ScanAnswers(server, db, t, [], filters, limit);
    ScanAnswers(server, db, t, projected, filters, limit);
  }
}
