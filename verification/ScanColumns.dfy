/** Which columns a scan asks for and returns (src/postgres_table.rs, lines 248-318). */
module ScanColumns {
  import opened Options
  import opened Values
  import opened DataFusion
  import opened SqlSyntax
  import opened PostgresTable
  import opened ScanText
  import opened PushdownPlan
  import P = Postgres

  /** The columns a scan is asked for, by position in the table's schema: those listed, or all. */
  function Asked(schema: Schema, projection: Option<seq<nat>>): seq<nat> {
    match projection
    case Some(indices) => indices
    case None => seq(|schema|, i => i)
  }

  predicate InRange(schema: Schema, indices: seq<nat>) {
    forall k | 0 <= k < |indices| :: indices[k] < |schema|
  }

  /** The statement asks for these columns, each in its place; for none of them it counts. */
  ghost predicate AsksFor(s: Statement, schema: Schema, indices: seq<nat>)
    requires InRange(schema, indices)
  {
    if indices == [] then s.projection.CountRows?
    else
      && s.projection.Columns? && |s.projection.names| == |indices|
      && forall k | 0 <= k < |indices| :: s.projection.names[k] == schema[indices[k]].name
  }

  /** The row has these columns and no others, with the values of `whole`. */
  ghost predicate HasJust(row: Row, whole: Row, schema: Schema, indices: seq<nat>)
    requires InRange(schema, indices)
  {
    && (forall k | 0 <= k < |indices| :: Get(row, schema[indices[k]].name) == Get(whole, schema[indices[k]].name))
    && (forall c | c in row :: exists k | 0 <= k < |indices| :: c == schema[indices[k]].name)
  }

  /** The answer holds one row for each selected row, or for no columns their number. */
  ghost predicate AnswersFor(answer: P.Answer, selected: seq<Row>, schema: Schema, indices: seq<nat>)
    requires InRange(schema, indices)
  {
    match answer
    case Count(n) => indices == [] && n == |selected|
    case Rows(rows) =>
      indices != [] && |rows| == |selected| && forall n | 0 <= n < |rows| :: HasJust(rows[n], selected[n], schema, indices)
  }

  lemma NamesAreThoseAsked(schema: Schema, projection: Option<seq<nat>>)
    ensures var indices := Asked(schema, projection);
      match ProjectedNames(schema, projection)
      case Failure => !InRange(schema, indices)
      case Success(names) =>
        && InRange(schema, indices) && |names| == |indices| && InSchema(names, schema)
        && forall k | 0 <= k < |indices| :: names[k] == schema[indices[k]].name
  {
    var r, indices := ProjectedNames(schema, projection), Asked(schema, projection);
    if r.Success? {
      forall c | c in r.value ensures HasColumn(schema, c) {
        var k :| 0 <= k < |indices| && r.value[k] == c;
        assert schema[indices[k]].name == c;
      }
    }
  }

  lemma ProjectionHasJust(row: Row, names: seq<string>, schema: Schema, indices: seq<nat>)
    requires InRange(schema, indices) && |names| == |indices|
    requires forall k | 0 <= k < |indices| :: names[k] == schema[indices[k]].name
    ensures HasJust(P.Project(names, row), row, schema, indices)
  {
    forall k | 0 <= k < |indices| ensures names[k] in names {
    }
  }

  /**
   A scan of a table the database hosts. Asked for a column that is not there it
   sends nothing and fails. Otherwise PostgreSQL reads a statement for the columns
   asked for, in their order. Unless it refuses a pushed constant, the answer is
   the selected rows with just those columns, or for no columns their number.
   */
  lemma ScanReturnsTheColumnsAskedFor(p: Provider, server: P.Server, db: P.Database, projection: Option<seq<nat>>,
                                      filters: seq<Expr>, limit: Option<nat>)
    requires Hosts(db, p.source) && LegalSource(p.source)
    ensures var schema, indices := p.source.schema, Asked(p.source.schema, projection);
      if !InRange(schema, indices) then
        p.Query(projection, filters, limit) == None && p.Answer(server, db, projection, filters, limit) == None
      else
        var query, answer := p.Query(projection, filters, limit), p.Answer(server, db, projection, filters, limit);
        && query.Some? && ReadStatement(query.value).Some? && AsksFor(ReadStatement(query.value).value, schema, indices)
        && (answer.None? <==> P.RefusesSome(server, schema, Pushed(p.source, filters)))
        && (answer.Some? ==> AnswersFor(answer.value, Selected(server, p.source, filters, limit, RowsOf(db, p.source)), schema, indices))
  {
    hide ReadStatement, ScanSql, P.Answers, Selected, P.RefusesSome, Pushed, ProjectedNames, LegalStatement, LegalSource, SameTypes, Conforms;
    var t, indices := p.source, Asked(p.source.schema, projection);
    NamesAreThoseAsked(t.schema, projection);
    if InRange(t.schema, indices) {
      var names := ProjectedNames(t.schema, projection).value;
      NamesAreLegal(t, names, filters, limit);
      StatementReadsBack(t, names, filters, limit);
      ScanAnswers(server, db, t, names, filters, limit);
      var selected := Selected(server, t, filters, limit, RowsOf(db, t));
      forall n | 0 <= n < |selected| ensures HasJust(P.Project(names, selected[n]), selected[n], t.schema, indices) {
        ProjectionHasJust(selected[n], names, t.schema, indices);
      }
    }
  }
}
