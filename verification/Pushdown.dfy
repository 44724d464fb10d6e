/** Translation of DataFusion filters into PostgreSQL `WHERE` text (src/pushdown.rs). */
module Pushdown {
  import opened Options
  import opened Strings
  import opened Values
  import opened DataFusion
  import Decimal
  import SqlLexer

  /** A delimited identifier, embedded double quotes doubled. */
  function QuoteIdent(name: string): string {
    "\"" + SqlLexer.Doubled('"', name) + "\""
  }

  /** A string constant, embedded quotes doubled; text with a NUL has no spelling. */
  function EscapeStringLiteral(s: string): Option<string> {
    if '\0' in s then None else Some("'" + SqlLexer.Doubled('\'', s) + "'")
  }

  function LiteralSql(v: ScalarValue): Option<string> {
    match v
    case BooleanScalar(Some(b)) => Some(if b then "TRUE" else "FALSE")
    case IntegerScalar(_, Some(i)) => Some(Decimal.Spell(i))
    case StringScalar(_, Some(s)) => EscapeStringLiteral(s)
    case _ => None
  }

  /** Only columns of the table's schema can be named. */
  function ColumnSql(name: string, schema: Schema): Option<string> {
    if HasColumn(schema, name) then Some(QuoteIdent(name)) else None
  }

  function ComparisonOpSql(op: Operator): Option<string> {
    match op
    case Eq => Some("=")
    case NotEq => Some("<>")
    case Lt => Some("<")
    case LtEq => Some("<=")
    case Gt => Some(">")
    case GtEq => Some(">=")
    case _ => None
  }

  /** The operator with its operands exchanged. */
  function FlipOperator(op: Operator): Operator {
    match op
    case Lt => Gt
    case LtEq => GtEq
    case Gt => Lt
    case GtEq => LtEq
    case other => other
  }

  predicate IsOrdering(op: Operator) {
    op.Lt? || op.LtEq? || op.Gt? || op.GtEq?
  }

  predicate IsStringLiteral(v: ScalarValue) {
    v.StringScalar? && v.s.Some?
  }

  /**
   `column op literal`; an ordering comparison of text is refused, collations
   disagree with byte order. Flipping keeps an ordering comparison one.
   */
  function ColumnComparison(name: string, op: Operator, v: ScalarValue, schema: Schema): Option<string> {
    if IsOrdering(op) && IsStringLiteral(v) then None
    else
      var sqlOp :- ComparisonOpSql(op);
      var col :- ColumnSql(name, schema);
      var lit :- LiteralSql(v);
      Some(col + " " + sqlOp + " " + lit)
  }

  function TranslateComparison(left: Expr, op: Operator, right: Expr, schema: Schema): Option<string> {
    if ComparisonOpSql(op).None? then None
    else if left.Column? && right.Literal? then ColumnComparison(left.name, op, right.value, schema)
    else if left.Literal? && right.Column? then ColumnComparison(right.name, FlipOperator(op), left.value, schema)
    else None
  }

  /** Every list element as a literal, or nothing if one is not. */
  function LiteralsSql(list: seq<Expr>): Option<seq<string>> {
    if list == [] then Some([])
    else
      var items :- LiteralsSql(list[..|list| - 1]);
      var last := list[|list| - 1];
      if !last.Literal? then None else
      var item :- LiteralSql(last.value);
      Some(items + [item])
  }

  function TranslateInList(e: Expr, list: seq<Expr>, negated: bool, schema: Schema): Option<string> {
    if !e.Column? then None else
    var col :- ColumnSql(e.name, schema);
    if list == [] then None else
    var items :- LiteralsSql(list);
    Some(col + " " + (if negated then "NOT IN" else "IN") + " (" + Join(items, ", ") + ")")
  }

  /** The loop of `translate_in_list`: it stops at the first element with no literal spelling. */
  method TranslateInListLoop(e: Expr, list: seq<Expr>, negated: bool, schema: Schema) returns (sql: Option<string>)
    ensures sql == TranslateInList(e, list, negated, schema)
  {
    if !e.Column? { return None; }
    var col :- ColumnSql(e.name, schema);
    if list == [] { return None; }
    var items := [];
    for i := 0 to |list|
      invariant LiteralsSql(list[..i]) == Some(items)
    {
      assert list[..i + 1][..i] == list[..i];
      var literal := if list[i].Literal? then LiteralSql(list[i].value) else None;
      if literal.None? {
        NoSpellingStaysNone(list, i + 1);
        return None;
      }
      items := items + [literal.value];
    }
    assert list[..|list|] == list;
    var keyword := if negated then "NOT IN" else "IN";
    return Some(col + " " + keyword + " (" + Join(items, ", ") + ")");
  }

  lemma {:induction false} NoSpellingStaysNone(list: seq<Expr>, i: nat)
    requires i <= |list| && LiteralsSql(list[..i]).None?
    ensures LiteralsSql(list).None?
    decreases |list|
  {
    if i < |list| {
      assert list[..|list| - 1][..i] == list[..i];
      NoSpellingStaysNone(list[..|list| - 1], i);
    } else {
      assert list[..i] == list;
    }
  }

  /** The `WHERE` fragment of a filter, or nothing if the filter is outside the supported grammar. */
  function TranslateFilter(e: Expr, schema: Schema): Option<string> {
    match e
    case BinaryExpr(left, op, right) =>
      if op == And then
        var l :- TranslateFilter(left, schema);
        var r :- TranslateFilter(right, schema);
        Some("(" + l + " AND " + r + ")")
      else TranslateComparison(left, op, right, schema)
    case IsNull(arg) =>
      if !arg.Column? then None else
      var col :- ColumnSql(arg.name, schema);
      Some(col + " IS NULL")
    case IsNotNull(arg) =>
      if !arg.Column? then None else
      var col :- ColumnSql(arg.name, schema);
      Some(col + " IS NOT NULL")
    case InList(arg, list, negated) => TranslateInList(arg, list, negated, schema)
    case _ => None
  }
}
