/** Exactly which filters are pushed: the grammar of src/pushdown.rs, lines 36-58. */
module PushdownGrammar {
  import opened Options
  import opened Values
  import opened DataFusion
  import opened Pushdown
  import opened PushdownText
  import opened PostgresTable

  /** A boolean, an integer, or text without NUL; not NULL. */
  predicate SupportedLiteral(v: ScalarValue) {
    match v
    case BooleanScalar(b) => b.Some?
    case IntegerScalar(_, i) => i.Some?
    case StringScalar(_, s) => s.Some? && '\0' !in s.value
    case OtherScalar(_) => false
  }

  /** `=` and `<>` with any supported literal, the four orderings with any but text. */
  predicate SupportedComparison(op: Operator, v: ScalarValue) {
    && SupportedLiteral(v)
    && (op.Eq? || op.NotEq? || (!v.StringScalar? && (op.Lt? || op.LtEq? || op.Gt? || op.GtEq?)))
  }

  predicate IsColumnOf(e: Expr, schema: Schema) {
    e.Column? && HasColumn(schema, e.name)
  }

  predicate InGrammar(e: Expr, schema: Schema) {
    match e
    case BinaryExpr(l, op, r) =>
      if op.And? then InGrammar(l, schema) && InGrammar(r, schema)
      else
        || (IsColumnOf(l, schema) && r.Literal? && SupportedComparison(op, r.value))
        || (l.Literal? && IsColumnOf(r, schema) && SupportedComparison(op, l.value))
    case IsNull(arg) => IsColumnOf(arg, schema)
    case IsNotNull(arg) => IsColumnOf(arg, schema)
    case InList(arg, list, _) =>
      IsColumnOf(arg, schema) && list != [] && forall i | 0 <= i < |list| :: list[i].Literal? && SupportedLiteral(list[i].value)
    case _ => false
  }

  lemma LiteralsHaveSpellings(v: ScalarValue)
    ensures LiteralSql(v).Some? <==> SupportedLiteral(v)
  {
  }

  lemma ComparisonsAreSupported(name: string, op: Operator, v: ScalarValue, schema: Schema)
    ensures ColumnComparison(name, op, v, schema).Some? <==> HasColumn(schema, name) && SupportedComparison(op, v)
    ensures ColumnComparison(name, FlipOperator(op), v, schema).Some? <==> HasColumn(schema, name) && SupportedComparison(op, v)
    ensures SupportedComparison(op, v) ==> ComparisonOpSql(op).Some?
  {
    hide HasColumn, QuoteIdent;
    LiteralsHaveSpellings(v);
  }

  /** A filter is translated exactly if it is in the grammar: nothing more is pushed, and nothing less. */
  lemma {:induction false} TranslatesExactlyTheGrammar(e: Expr, schema: Schema)
    ensures TranslateFilter(e, schema).Some? <==> InGrammar(e, schema)
    decreases e
  {
    hide ColumnComparison, SupportedComparison, FlipOperator, LiteralSql, SupportedLiteral, HasColumn, QuoteIdent, ComparisonOpSql;
    match e
    case BinaryExpr(l, op, r) =>
      if op == And {
        TranslatesExactlyTheGrammar(l, schema);
        TranslatesExactlyTheGrammar(r, schema);
      } else if l.Column? && r.Literal? {
        ComparisonsAreSupported(l.name, op, r.value, schema);
      } else if l.Literal? && r.Column? {
        ComparisonsAreSupported(r.name, op, l.value, schema);
      }
    case InList(arg, list, _) =>
      LiteralsPointwise(list);
      forall i | 0 <= i < |list| && list[i].Literal? ensures LiteralSql(list[i].value).Some? <==> SupportedLiteral(list[i].value) {
        LiteralsHaveSpellings(list[i].value);
      }
    case _ =>
  }

  /** The planner is told to hand over exactly the filters of the grammar, or none with pushdown off. */
  lemma {:induction false} GrammarIsHandedToScan(t: Source, filters: seq<Expr>)
    ensures |SupportsFiltersPushdown(t, filters)| == |filters|
    ensures forall i | 0 <= i < |filters| ::
      SupportsFiltersPushdown(t, filters)[i] == if t.filterPushdown && InGrammar(filters[i], t.schema) then Inexact else Unsupported
    ensures forall f :: f in HandedToScan(t, filters) <==> f in filters && t.filterPushdown && InGrammar(f, t.schema)
  {
    hide TranslateFilter, InGrammar;
    forall i | 0 <= i < |filters| ensures TranslateFilter(filters[i], t.schema).Some? <==> InGrammar(filters[i], t.schema) {
      TranslatesExactlyTheGrammar(filters[i], t.schema);
    }
    if filters != [] {
      GrammarIsHandedToScan(t, filters[1..]);
      assert filters == [filters[0]] + filters[1..];
    }
  }
}
