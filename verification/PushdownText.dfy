/** A translated fragment reads back, character by character, as one predicate. */
module PushdownText {
  import opened Options
  import opened Strings
  import opened Values
  import opened DataFusion
  import opened Pushdown
  import opened SqlLexer
  import opened SqlSyntax
  import Decimal

  // ---- The predicate a fragment is meant to be ----

  function IntendedConstant(v: ScalarValue): Option<Constant> {
    match v
    case BooleanScalar(Some(b)) => Some(BoolConst(b))
    case IntegerScalar(_, Some(i)) => Some(IntConst(i))
    case StringScalar(_, Some(s)) => if '\0' in s then None else Some(TextConst(s))
    case _ => None
  }

  function IntendedConstants(list: seq<Expr>): Option<seq<Constant>> {
    if list == [] then Some([])
    else if !list[0].Literal? then None
    else
      var c :- IntendedConstant(list[0].value);
      var cs :- IntendedConstants(list[1..]);
      Some([c] + cs)
  }

  function IntendedOperator(op: Operator): Option<Comparison> {
    match op
    case Eq => Some(Equal)
    case NotEq => Some(NotEqual)
    case Lt => Some(Less)
    case LtEq => Some(LessOrEqual)
    case Gt => Some(Greater)
    case GtEq => Some(GreaterOrEqual)
    case _ => None
  }

  function IntendedComparison(name: string, op: Operator, v: ScalarValue, schema: Schema): Option<Predicate> {
    if !HasColumn(schema, name) || (IsOrdering(op) && IsStringLiteral(v)) then None
    else
      var cmp :- IntendedOperator(op);
      var c :- IntendedConstant(v);
      Some(Compare(name, cmp, c))
  }

  function Intended(e: Expr, schema: Schema): Option<Predicate> {
    match e
    case BinaryExpr(l, op, r) =>
      if op == And then
        var p :- Intended(l, schema);
        var q :- Intended(r, schema);
        Some(Both(p, q))
      else if l.Column? && r.Literal? then IntendedComparison(l.name, op, r.value, schema)
      else if l.Literal? && r.Column? then IntendedComparison(r.name, FlipOperator(op), l.value, schema)
      else None
    case IsNull(arg) => if arg.Column? && HasColumn(schema, arg.name) then Some(SqlSyntax.Null(arg.name)) else None
    case IsNotNull(arg) => if arg.Column? && HasColumn(schema, arg.name) then Some(NotNull(arg.name)) else None
    case InList(arg, list, negated) =>
      if !arg.Column? || !HasColumn(schema, arg.name) || list == [] then None else
      var items :- IntendedConstants(list);
      Some(Member(arg.name, negated, items))
    case _ => None
  }

  // ---- Which names PostgreSQL accepts as delimited identifiers ----

  /** At least one character, none of them NUL. */
  predicate LegalName(name: string) {
    name != "" && NUL_CHAR !in name
  }

  predicate LegalNames(p: Predicate) {
    match p
    case Both(l, r) => LegalNames(l) && LegalNames(r)
    case _ => LegalName(p.column)
  }

  // ---- Reading back ----

  lemma LexQuotedIdent(name: string, rest: string)
    requires rest == "" || rest[0] != '"'
    ensures Lex(QuoteIdent(name) + rest) == if LegalName(name) then Prepend([Ident(name)], Lex(rest)) else None
  {
    hide Lex;
    LexIdent(name, rest);
  }

  lemma LexInteger(i: int, rest: string)
    requires Breaks(rest)
    ensures Lex(Decimal.Spell(i) + rest) == Prepend(ConstantTokens(IntConst(i)), Lex(rest))
  {
    hide Lex, Decimal.Digits;
    if i < 0 {
      var number := Decimal.Digits(-i) + rest;
      LexNum(-i, rest);
      assert Decimal.IsDigit(number[0]);
      LexMinus(number);
      Reassociate("-", Decimal.Digits(-i), rest);
      PrependTwice([Op(Minus)], [Num(-i)], Lex(rest));
      assert [Op(Minus)] + [Num(-i)] == [Op(Minus), Num(-i)];
    } else {
      LexNum(i, rest);
    }
  }

  lemma LexLiteral(v: ScalarValue, rest: string)
    requires LiteralSql(v).Some? && Breaks(rest)
    ensures IntendedConstant(v).Some?
    ensures Lex(LiteralSql(v).value + rest) == Prepend(ConstantTokens(IntendedConstant(v).value), Lex(rest))
  {
    hide Lex;
    match v
    case BooleanScalar(Some(b)) => LexKey(if b then TRUE else FALSE, rest);
    case IntegerScalar(_, Some(i)) => LexInteger(i, rest);
    case StringScalar(_, Some(s)) => LexStr(s, rest);
  }

  lemma PrependTwice(a: seq<Token>, b: seq<Token>, o: Option<seq<Token>>)
    ensures Prepend(a, Prepend(b, o)) == Prepend(a + b, o)
  {
    if o.Some? {
      Reassociate(a, b, o.value);
    }
  }

  lemma LexComparisonOperator(op: Operator, rest: string)
    requires ComparisonOpSql(op).Some? && (rest == "" || !IsOpChar(rest[0]))
    ensures IntendedOperator(op).Some?
    ensures Lex(ComparisonOpSql(op).value + rest)
         == Prepend([Op(ComparisonSymbol(IntendedOperator(op).value))], Lex(rest))
  {
    hide Lex;
    LexOp(ComparisonOpSql(op).value, rest);
  }

  lemma ColumnComparisonReads(name: string, op: Operator, v: ScalarValue, schema: Schema, rest: string)
    requires ColumnComparison(name, op, v, schema).Some? && Breaks(rest)
    ensures IntendedComparison(name, op, v, schema).Some?
    ensures var p := IntendedComparison(name, op, v, schema).value;
      Lex(ColumnComparison(name, op, v, schema).value + rest)
      == if LegalNames(p) then Prepend(PredicateTokens(p), Lex(rest)) else None
  {
    hide Lex, QuoteIdent, LiteralSql, IntendedConstant, ConstantTokens, ComparisonSymbol, HasColumn;
    var o, lit := ComparisonOpSql(op).value, LiteralSql(v).value;
    var afterOp := " " + (lit + rest);
    var afterName := " " + (o + afterOp);
    assert ColumnComparison(name, op, v, schema).value + rest == QuoteIdent(name) + afterName;
    LexQuotedIdent(name, afterName);
    LexSpace(o + afterOp);
    LexComparisonOperator(op, afterOp);
    LexSpace(lit + rest);
    LexLiteral(v, rest);
    var ot, ct := [Op(ComparisonSymbol(IntendedOperator(op).value))], ConstantTokens(IntendedConstant(v).value);
    PrependTwice(ot, ct, Lex(rest));
    PrependTwice([Ident(name)], ot + ct, Lex(rest));
  }

  lemma {:induction false} LiteralsPointwise(list: seq<Expr>)
    ensures LiteralsSql(list).Some? <==> forall i | 0 <= i < |list| :: list[i].Literal? && LiteralSql(list[i].value).Some?
    ensures LiteralsSql(list).Some? ==> |LiteralsSql(list).value| == |list| && forall i | 0 <= i < |list| ::
      Some(LiteralsSql(list).value[i]) == LiteralSql(list[i].value)
  {
    if list != [] {
      LiteralsPointwise(list[..|list| - 1]);
    }
  }

  lemma {:induction false} IntendedPointwise(list: seq<Expr>)
    ensures IntendedConstants(list).Some? <==> forall i | 0 <= i < |list| :: list[i].Literal? && LiteralSql(list[i].value).Some?
  {
    if list != [] {
      IntendedPointwise(list[1..]);
      assert forall i | 0 < i < |list| :: list[i] == list[1..][i - 1];
      assert forall i | 0 <= i < |list| - 1 :: list[1..][i] == list[i + 1];
    }
  }

  /** The parenthesised items of an `IN` list, from the first item on. */
  lemma {:induction false} LexItems(list: seq<Expr>, parts: seq<string>, rest: string)
    requires list != [] && |parts| == |list|
    requires forall i | 0 <= i < |list| :: list[i].Literal? && LiteralSql(list[i].value) == Some(parts[i])
    ensures IntendedConstants(list).Some? && IntendedConstants(list).value != []
    ensures Lex(Join(parts, ", ") + (")" + rest)) == Prepend(ItemTokens(IntendedConstants(list).value), Lex(rest))
  {
    hide Lex, LiteralSql, IntendedConstant, ConstantTokens;
    var head := IntendedConstant(list[0].value);
    if |list| == 1 {
      LexLiteral(list[0].value, ")" + rest);
      LexPunct(')', rest);
      PrependTwice(ConstantTokens(head.value), [Punct(')')], Lex(rest));
      assert IntendedConstants(list[1..]) == Some([]);
    } else {
      LexItems(list[1..], parts[1..], rest);
      var more := Join(parts[1..], ", ") + (")" + rest);
      var comma := "," + (" " + more);
      assert Join(parts, ", ") + (")" + rest) == parts[0] + comma;
      LexLiteral(list[0].value, comma);
      LexPunct(',', " " + more);
      LexSpace(more);
      var items := IntendedConstants(list[1..]).value;
      assert ([head.value] + items)[1..] == items;
      PrependTwice([Punct(',')], ItemTokens(items), Lex(rest));
      PrependTwice(ConstantTokens(head.value), [Punct(',')] + ItemTokens(items), Lex(rest));
    }
  }

  /** `IN (items)` after the column name. */
  lemma LexMembers(list: seq<Expr>, parts: seq<string>, rest: string)
    requires list != [] && |parts| == |list|
    requires forall i | 0 <= i < |list| :: list[i].Literal? && LiteralSql(list[i].value) == Some(parts[i])
    ensures IntendedConstants(list).Some? && IntendedConstants(list).value != []
    ensures Lex(" " + "IN" + (" " + ("(" + (Join(parts, ", ") + (")" + rest)))))
         == Prepend([Key(IN)] + ([Punct('(')] + ItemTokens(IntendedConstants(list).value)), Lex(rest))
  {
    hide Lex;
    LexItems(list, parts, rest);
    var it := ItemTokens(IntendedConstants(list).value);
    var body := Join(parts, ", ") + (")" + rest);
    LexPunct('(', body);
    LexSpace("(" + body);
    LexKeyword(IN, " " + ("(" + body));
    PrependTwice([Punct('(')], it, Lex(rest));
    PrependTwice([Key(IN)], [Punct('(')] + it, Lex(rest));
  }

  lemma LexNot(tail: string, ts: seq<Token>, rest: Option<seq<Token>>)
    requires Breaks(tail) && Lex(tail) == Prepend([Key(IN)] + ts, rest)
    ensures Lex(" " + "NOT" + tail) == Prepend([Key(NOT), Key(IN)] + ts, rest)
  {
    hide Lex;
    LexKeyword(NOT, tail);
    PrependTwice([Key(NOT)], [Key(IN)] + ts, rest);
    Reassociate([Key(NOT)], [Key(IN)], ts);
    assert [Key(NOT)] + [Key(IN)] == [Key(NOT), Key(IN)];
  }

  /** The translated text is the name followed by that tail. */
  lemma InListSpelling(col: string, joined: string, negated: bool, rest: string)
    ensures var tail := " " + "IN" + (" " + ("(" + (joined + (")" + rest))));
      (col + " " + (if negated then "NOT IN" else "IN") + " (" + joined + ")") + rest
      == col + (if negated then " " + "NOT" + tail else tail)
  {
    var tail := " " + "IN" + (" " + ("(" + (joined + (")" + rest))));
    Reassociate(col + " " + (if negated then "NOT IN" else "IN") + " (" + joined, ")", rest);
    Reassociate(col + " " + (if negated then "NOT IN" else "IN") + " (", joined, ")" + rest);
    var body := joined + (")" + rest);
    var head := if negated then "NOT IN" else "IN";
    Reassociate(col + " " + head, " (", body);
    Reassociate(col + " ", head, " (" + body);
    Reassociate(col, " ", head + (" (" + body));
    assert " (" + body == " " + ("(" + body);
    if negated {
      assert " " + (head + (" " + ("(" + body))) == " " + "NOT" + tail;
    } else {
      assert " " + (head + (" " + ("(" + body))) == tail;
    }
  }

  lemma InListReads(name: string, list: seq<Expr>, negated: bool, schema: Schema, rest: string)
    requires TranslateInList(Column(name), list, negated, schema).Some?
    ensures IntendedConstants(list).Some? && IntendedConstants(list).value != []
    ensures var p := Member(name, negated, IntendedConstants(list).value);
      Lex(TranslateInList(Column(name), list, negated, schema).value + rest)
      == if LegalNames(p) then Prepend(PredicateTokens(p), Lex(rest)) else None
  {
    hide Lex;
    LiteralsPointwise(list);
    var parts := LiteralsSql(list).value;
    LexMembers(list, parts, rest);
    InListSpelling(QuoteIdent(name), Join(parts, ", "), negated, rest);
    var tail := " " + "IN" + (" " + ("(" + (Join(parts, ", ") + (")" + rest))));
    var after := if negated then " " + "NOT" + tail else tail;
    var items := IntendedConstants(list).value;
    LexNot(tail, [Punct('(')] + ItemTokens(items), Lex(rest));
    LexQuotedIdent(name, after);
    var p := Member(name, negated, items);
    PrependTwice([Ident(name)], TestTokens(p), Lex(rest));
  }

  /** ` NULL`, ` NOT NULL` and what precedes them, as their words. */
  lemma LexNull(rest: string)
    requires Breaks(rest)
    ensures Lex(" IS NULL" + rest) == Prepend([Key(IS), Key(NULL)], Lex(rest))
  {
    hide Lex;
    var after := " " + "NULL" + rest;
    LexKeyword(NULL, rest);
    LexKeyword(IS, after);
    assert " IS NULL" + rest == " " + "IS" + after;
    PrependTwice([Key(IS)], [Key(NULL)], Lex(rest));
    assert [Key(IS)] + [Key(NULL)] == [Key(IS), Key(NULL)];
  }

  lemma LexNotNull(rest: string)
    requires Breaks(rest)
    ensures Lex(" IS NOT NULL" + rest) == Prepend([Key(IS), Key(NOT), Key(NULL)], Lex(rest))
  {
    hide Lex;
    var afterNot := " " + Spelling(NULL) + rest;
    var afterIs := " " + Spelling(NOT) + afterNot;
    LexKeyword(NULL, rest);
    LexKeyword(NOT, afterNot);
    LexKeyword(IS, afterIs);
    assert " IS NOT NULL" + rest == " " + Spelling(IS) + afterIs by {
      Reassociate(" IS NOT", " NULL", rest);
      Reassociate(" IS", " NOT", afterNot);
      assert " IS NOT NULL" == " IS NOT" + " NULL";
      assert " IS NOT" == " IS" + " NOT";
      assert " NULL" == " " + Spelling(NULL) && " NOT" == " " + Spelling(NOT) && " IS" == " " + Spelling(IS);
    }
    assert [Key(IS)] + ([Key(NOT)] + [Key(NULL)]) == [Key(IS), Key(NOT), Key(NULL)];
    PrependTwice([Key(NOT)], [Key(NULL)], Lex(rest));
    PrependTwice([Key(IS)], [Key(NOT)] + [Key(NULL)], Lex(rest));
  }

  lemma NullTestReads(name: string, suffix: string, p: Predicate, rest: string)
    requires (suffix == " IS NULL" && p == SqlSyntax.Null(name)) || (suffix == " IS NOT NULL" && p == NotNull(name))
    requires Breaks(rest)
    ensures Lex(QuoteIdent(name) + suffix + rest)
         == if LegalNames(p) then Prepend(PredicateTokens(p), Lex(rest)) else None
  {
    hide Lex;
    if p.Null? {
      LexNull(rest);
    } else {
      LexNotNull(rest);
    }
    Reassociate(QuoteIdent(name), suffix, rest);
    LexQuotedIdent(name, suffix + rest);
    PrependTwice([Ident(name)], TestTokens(p), Lex(rest));
  }

  lemma BothSpelling(l: string, r: string, rest: string)
    ensures "(" + l + " AND " + r + ")" + rest == "(" + (l + (" " + "AND" + (" " + (r + (")" + rest)))))
  {
    var close := r + (")" + rest);
    Reassociate("(" + l + " AND " + r, ")", rest);
    Reassociate("(" + l + " AND ", r, ")" + rest);
    Reassociate("(" + l, " AND ", close);
    Reassociate("(", l, " AND " + close);
    assert " AND " + close == " " + "AND" + (" " + close);
  }

  lemma BothTokens(p: Predicate, q: Predicate, o: Option<seq<Token>>)
    requires WellFormed(p) && WellFormed(q)
    ensures Prepend([Punct('(')], Prepend(PredicateTokens(p), Prepend([Key(AND)],
              Prepend(PredicateTokens(q), Prepend([Punct(')')], o)))))
         == Prepend(PredicateTokens(Both(p, q)), o)
  {
    var tp, tq := PredicateTokens(p), PredicateTokens(q);
    PrependTwice(tq, [Punct(')')], o);
    PrependTwice([Key(AND)], tq + [Punct(')')], o);
    PrependTwice(tp, [Key(AND)] + (tq + [Punct(')')]), o);
    PrependTwice([Punct('(')], tp + ([Key(AND)] + (tq + [Punct(')')])), o);
  }

  /** The tokens a fragment for `p` gives in front of `rest`. */
  function TokensBefore(p: Predicate, rest: string): Option<seq<Token>>
    requires WellFormed(p)
  {
    if LegalNames(p) then Prepend(PredicateTokens(p), Lex(rest)) else None
  }

  /** `(l AND r)`, given how each side reads in its place. */
  lemma BothReads(l: string, r: string, p: Predicate, q: Predicate, rest: string)
    requires WellFormed(p) && WellFormed(q)
    requires Lex(r + (")" + rest)) == TokensBefore(q, ")" + rest)
    requires var after := " " + "AND" + (" " + (r + (")" + rest))); Lex(l + after) == TokensBefore(p, after)
    ensures Lex("(" + l + " AND " + r + ")" + rest) == TokensBefore(Both(p, q), rest)
  {
    hide Lex;
    var close := r + (")" + rest);
    var after := " " + "AND" + (" " + close);
    BothSpelling(l, r, rest);
    LexPunct('(', l + after);
    LexKeyword(AND, " " + close);
    LexSpace(close);
    LexPunct(')', rest);
    BothTokens(p, q, Lex(rest));
  }

  /** `sql` reads, in front of `rest`, as `p`; there is one exactly when there is the other. */
  ghost predicate Reads(sql: Option<string>, p: Option<Predicate>, rest: string) {
    && (sql.Some? <==> p.Some?)
    && (p.Some? ==> WellFormed(p.value) && Lex(sql.value + rest) == TokensBefore(p.value, rest))
  }

  lemma ComparisonReads(l: Expr, op: Operator, r: Expr, schema: Schema, rest: string)
    requires Breaks(rest) && op != And
    ensures Reads(TranslateComparison(l, op, r, schema), Intended(BinaryExpr(l, op, r), schema), rest)
  {
    hide Lex;
    if l.Column? && r.Literal? && ColumnComparison(l.name, op, r.value, schema).Some? {
      ColumnComparisonReads(l.name, op, r.value, schema, rest);
    } else if l.Literal? && r.Column? && ColumnComparison(r.name, FlipOperator(op), l.value, schema).Some? {
      ColumnComparisonReads(r.name, FlipOperator(op), l.value, schema, rest);
    }
  }

  lemma MembershipReads(arg: Expr, list: seq<Expr>, negated: bool, schema: Schema, rest: string)
    ensures Reads(TranslateInList(arg, list, negated, schema), Intended(InList(arg, list, negated), schema), rest)
  {
    hide Lex;
    LiteralsPointwise(list);
    IntendedPointwise(list);
    if arg.Column? && TranslateInList(arg, list, negated, schema).Some? {
      InListReads(arg.name, list, negated, schema, rest);
    }
  }

  /**
   A filter translates exactly when it has an intended predicate, and then the
   fragment in front of any text that breaks it lexes to that predicate's
   tokens, or to nothing when it names a column PostgreSQL cannot be given.
   */
  lemma {:induction false} FragmentReads(e: Expr, schema: Schema, rest: string)
    requires Breaks(rest)
    ensures Reads(TranslateFilter(e, schema), Intended(e, schema), rest)
    decreases e, 1
  {
    hide Lex;
    match e
    case BinaryExpr(l, op, r) =>
      if op == And {
        ConjunctionReads(e, schema, rest);
      } else {
        ComparisonReads(l, op, r, schema, rest);
      }
    case IsNull(arg) =>
      if arg.Column? {
        NullTestReads(arg.name, " IS NULL", SqlSyntax.Null(arg.name), rest);
      }
    case IsNotNull(arg) =>
      if arg.Column? {
        NullTestReads(arg.name, " IS NOT NULL", NotNull(arg.name), rest);
      }
    case InList(arg, list, negated) => MembershipReads(arg, list, negated, schema, rest);
    case _ =>
  }

  lemma {:induction false} ConjunctionReads(e: Expr, schema: Schema, rest: string)
    requires e.BinaryExpr? && e.op == And && Breaks(rest)
    ensures Reads(TranslateFilter(e, schema), Intended(e, schema), rest)
    decreases e, 0
  {
    hide Lex;
    var l, r := e.left, e.right;
    FragmentReads(r, schema, ")" + rest);
    var sr := TranslateFilter(r, schema);
    if sr.Some? {
      var after := " " + "AND" + (" " + (sr.value + (")" + rest)));
      FragmentReads(l, schema, after);
      var sl := TranslateFilter(l, schema);
      if sl.Some? {
        BothReads(sl.value, sr.value, Intended(l, schema).value, Intended(r, schema).value, rest);
      }
    } else {
      FragmentReads(l, schema, ")" + rest);
    }
  }
}
