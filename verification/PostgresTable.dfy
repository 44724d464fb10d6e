/** The table provider: the scan statement, the limit rule, and the scan itself (src/postgres_table.rs). */
module PostgresTable {
  import opened Options
  import opened Strings
  import opened Values
  import opened DataFusion
  import opened Pushdown
  import Decimal
  import P = Postgres

  datatype Result<+T> = Success(value: T) | Failure

  function QuoteRelation(schemaName: string, tableName: string): string {
    QuoteIdent(schemaName) + "." + QuoteIdent(tableName)
  }

  function QuoteAll(names: seq<string>): seq<string> {
    seq(|names|, i requires 0 <= i < |names| => QuoteIdent(names[i]))
  }

  function BuildScanSql(schemaName: string, tableName: string, projected: seq<string>,
                        conjuncts: seq<string>, limit: Option<nat>): string {
    var whereClause := if conjuncts == [] then "" else " WHERE " + Join(conjuncts, " AND ");
    var limitClause := if limit.None? then "" else " LIMIT " + Decimal.Spell(limit.value);
    var relation := QuoteRelation(schemaName, tableName);
    if projected == [] then
      "SELECT COUNT(*) FROM (SELECT 1 FROM " + relation + whereClause + limitClause + ") AS t"
    else
      "SELECT " + Join(QuoteAll(projected), ", ") + " FROM " + relation + whereClause + limitClause
  }

  /** The limit travels only when every filter handed to the scan was translated. */
  function PushedLimit(limit: Option<nat>, translated: nat, total: nat): Option<nat> {
    if translated == total then limit else None
  }

  /** Rust's `filter_map(translate).collect()`. */
  function TranslateAll(filters: seq<Expr>, schema: Schema): seq<string> {
    if filters == [] then []
    else
      var rest := TranslateAll(filters[1..], schema);
      match TranslateFilter(filters[0], schema)
      case Some(sql) => [sql] + rest
      case None => rest
  }

  /** A registered table: where it lives and what its columns are. */
  datatype Source = Source(schemaName: string, tableName: string, schema: Schema, filterPushdown: bool)

  datatype FilterPushdown = Inexact | Unsupported

  function Classify(t: Source, f: Expr): FilterPushdown {
    if t.filterPushdown && TranslateFilter(f, t.schema).Some? then Inexact else Unsupported
  }

  function SupportsFiltersPushdown(t: Source, filters: seq<Expr>): seq<FilterPushdown> {
    seq(|filters|, i requires 0 <= i < |filters| => Classify(t, filters[i]))
  }

  /** The filters DataFusion hands to the scan: those not reported unsupported. */
  function HandedToScan(t: Source, filters: seq<Expr>): seq<Expr> {
    if filters == [] then []
    else (if SupportsFiltersPushdown(t, filters)[0] == Inexact then [filters[0]] else []) + HandedToScan(t, filters[1..])
  }

  /** The statement a scan sends for these projected columns. */
  function ScanSql(t: Source, projected: seq<string>, filters: seq<Expr>, limit: Option<nat>): string {
    var conjuncts := if t.filterPushdown then TranslateAll(filters, t.schema) else [];
    BuildScanSql(t.schemaName, t.tableName, projected, conjuncts, PushedLimit(limit, |conjuncts|, |filters|))
  }

  /** Arrow's `Schema::project`: fails on an index out of range. */
  function ProjectedNames(schema: Schema, projection: Option<seq<nat>>): Result<seq<string>> {
    match projection
    case None => Success(seq(|schema|, i requires 0 <= i < |schema| => schema[i].name))
    case Some(indices) =>
      if exists k | 0 <= k < |indices| :: indices[k] >= |schema| then Failure
      else Success(seq(|indices|, k requires 0 <= k < |indices| => schema[indices[k]].name))
  }

  /** A scan's rows, or for an empty projection only their number. */
  type ScanResult = P.Answer

  class Provider {
    const source: Source
    var rowsFetched: nat

    constructor (source: Source)
      ensures this.source == source && rowsFetched == 0
    {
      this.source := source;
      rowsFetched := 0;
    }

    /** The text a scan sends, if the projection is in range. */
    ghost function Query(projection: Option<seq<nat>>, filters: seq<Expr>, limit: Option<nat>): Option<string> {
      match ProjectedNames(source.schema, projection)
      case Failure => None
      case Success(projected) => Some(ScanSql(source, projected, filters, limit))
    }

    /** What the server answers to it. */
    ghost function Answer(server: P.Server, db: P.Database, projection: Option<seq<nat>>, filters: seq<Expr>, limit: Option<nat>): Option<P.Answer> {
      var query :- Query(projection, filters, limit);
      P.Answers(server, db, query)
    }

    /**
     Runs the scan against a server. `decodes` says whether rows decode into Arrow
     arrays; rows are counted as they arrive, before decoding may fail, and only
     on the column form.
     */
    method Scan(server: P.Server, db: P.Database, decodes: seq<Row> -> bool,
                projection: Option<seq<nat>>, filters: seq<Expr>, limit: Option<nat>)
      returns (r: Result<ScanResult>)
      modifies this`rowsFetched
      ensures match Answer(server, db, projection, filters, limit)
        case None => r == Failure && rowsFetched == old(rowsFetched)
        case Some(Count(n)) => r == Success(P.Count(n)) && rowsFetched == old(rowsFetched)
        case Some(Rows(rows)) =>
          && r == (if decodes(rows) then Success(P.Rows(rows)) else Failure)
          && rowsFetched == old(rowsFetched) + |rows|
    {
      var projected := ProjectedNames(source.schema, projection);
      if projected.Failure? {
        return Failure;
      }
      var conjuncts := if source.filterPushdown then TranslateAll(filters, source.schema) else [];
      var effectiveLimit := PushedLimit(limit, |conjuncts|, |filters|);
      var query := BuildScanSql(source.schemaName, source.tableName, projected.value, conjuncts, effectiveLimit);
      var answer := P.Answers(server, db, query);
      match answer
      case None => return Failure;
      case Some(Count(n)) => return Success(P.Count(n));
      case Some(Rows(rows)) =>
        rowsFetched := rowsFetched + |rows|;
        if !decodes(rows) {
          return Failure;
        }
        return Success(P.Rows(rows));
    }
  }
}
