/** The whole statement a scan sends reads back as exactly the intended one. */
module ScanText {
  import opened Options
  import opened Strings
  import opened Values
  import opened DataFusion
  import opened Pushdown
  import opened PushdownText
  import opened SqlLexer
  import opened SqlSyntax
  import opened PostgresTable
  import Decimal

  function IntendedAll(filters: seq<Expr>, schema: Schema): seq<Predicate> {
    if filters == [] then []
    else
      var rest := IntendedAll(filters[1..], schema);
      match Intended(filters[0], schema)
      case Some(p) => [p] + rest
      case None => rest
  }

  /** The statement a scan means to send. */
  function IntendedScan(t: Source, projected: seq<string>, filters: seq<Expr>, limit: Option<nat>): Statement {
    var conjuncts := if t.filterPushdown then IntendedAll(filters, t.schema) else [];
    Statement(if projected == [] then CountRows else Columns(projected), t.schemaName, t.tableName, conjuncts,
              PushedLimit(limit, |conjuncts|, |filters|))
  }

  predicate LegalStatement(s: Statement) {
    && LegalName(s.schemaName) && LegalName(s.tableName)
    && (forall p | p in s.conjuncts :: LegalNames(p))
    && (s.projection.Columns? ==> forall c | c in s.projection.names :: LegalName(c))
  }

  /** `f` is a fragment for `p`: it reads as `p` wherever it is spliced in. */
  ghost predicate FragmentFor(f: string, p: Predicate) {
    WellFormed(p) && forall rest: string | Breaks(rest) :: Lex(f + rest) == TokensBefore(p, rest)
  }

  ghost predicate FragmentsFor(fs: seq<string>, ps: seq<Predicate>) {
    |fs| == |ps| && forall i | 0 <= i < |fs| :: FragmentFor(fs[i], ps[i])
  }

  lemma {:induction false} TranslationsAreFragments(filters: seq<Expr>, schema: Schema)
    ensures FragmentsFor(TranslateAll(filters, schema), IntendedAll(filters, schema))
  {
    if filters != [] {
      TranslationsAreFragments(filters[1..], schema);
      FragmentReads(filters[0], schema, "");
      if Intended(filters[0], schema).Some? {
        forall rest: string | Breaks(rest)
          ensures Lex(TranslateFilter(filters[0], schema).value + rest) == TokensBefore(Intended(filters[0], schema).value, rest)
        {
          FragmentReads(filters[0], schema, rest);
        }
      }
    }
  }

  function When(legal: bool, ts: seq<Token>, rest: Option<seq<Token>>): Option<seq<Token>> {
    if legal then Prepend(ts, rest) else None
  }

  lemma JoinSpelling(first: string, separator: string, others: string, rest: string)
    ensures first + separator + others + rest == first + (separator + (others + rest))
  {
    Reassociate(first + separator, others, rest);
    Reassociate(first, separator, others + rest);
  }

  lemma {:induction false} LexConjuncts(fs: seq<string>, ps: seq<Predicate>, rest: string)
    requires FragmentsFor(fs, ps) && fs != [] && Breaks(rest)
    ensures forall p | p in ps :: WellFormed(p)
    ensures Lex(Join(fs, " AND ") + rest) == When(forall p | p in ps :: LegalNames(p), ConjunctTokens(ps), Lex(rest))
  {
    hide Lex, WellFormed, LegalNames, PredicateTokens;
    assert FragmentFor(fs[0], ps[0]);
    if |fs| > 1 {
      LexConjuncts(fs[1..], ps[1..], rest);
      var more := Join(fs[1..], " AND ") + rest;
      var after := " " + "AND" + (" " + more);
      JoinSpelling(fs[0], " AND ", Join(fs[1..], " AND "), rest);
      assert " AND " + more == after;
      LexKeyword(AND, " " + more);
      LexSpace(more);
      assert ps == [ps[0]] + ps[1..];
      var ts := ConjunctTokens(ps[1..]);
      PrependTwice([Key(AND)], ts, Lex(rest));
      PrependTwice(PredicateTokens(ps[0]), [Key(AND)] + ts, Lex(rest));
    } else {
      assert ps == [ps[0]];
      assert PredicateTokens(ps[0]) + [] == PredicateTokens(ps[0]);
      assert LegalNames(ps[0]) <==> forall p | p in ps :: LegalNames(p);
    }
  }

  lemma {:induction false} LexColumns(names: seq<string>, rest: string)
    requires names != [] && Breaks(rest)
    ensures Lex(Join(QuoteAll(names), ", ") + rest)
         == When(forall c | c in names :: LegalName(c), ColumnTokens(names), Lex(rest))
  {
    hide Lex, QuoteIdent;
    if |names| == 1 {
      LexQuotedIdent(names[0], rest);
      assert names == [names[0]];
      assert [Ident(names[0])] + [] == [Ident(names[0])];
      assert LegalName(names[0]) <==> forall c | c in names :: LegalName(c);
    } else {
      LexColumns(names[1..], rest);
      assert QuoteAll(names)[1..] == QuoteAll(names[1..]);
      var more := Join(QuoteAll(names[1..]), ", ") + rest;
      var after := "," + (" " + more);
      JoinSpelling(QuoteIdent(names[0]), ", ", Join(QuoteAll(names[1..]), ", "), rest);
      assert ", " + more == after;
      LexQuotedIdent(names[0], after);
      LexPunct(',', " " + more);
      LexSpace(more);
      var ts := ColumnTokens(names[1..]);
      PrependTwice([Punct(',')], ts, Lex(rest));
      PrependTwice([Ident(names[0])], [Punct(',')] + ts, Lex(rest));
      assert names == [names[0]] + names[1..];
    }
  }

  function WhereClause(fs: seq<string>): string {
    if fs == [] then "" else " WHERE " + Join(fs, " AND ")
  }

  function LimitClause(limit: Option<nat>): string {
    if limit.None? then "" else " LIMIT " + Decimal.Spell(limit.value)
  }

  lemma WhereSpelling(fs: seq<string>, rest: string)
    requires fs != []
    ensures WhereClause(fs) + rest == " " + "WHERE" + (" " + (Join(fs, " AND ") + rest))
  {
    hide Join;
    Reassociate(" WHERE ", Join(fs, " AND "), rest);
    assert " WHERE " == " " + "WHERE" + " ";
    Reassociate(" " + "WHERE", " ", Join(fs, " AND ") + rest);
  }

  lemma LexWhere(fs: seq<string>, ps: seq<Predicate>, rest: string)
    requires FragmentsFor(fs, ps) && Breaks(rest)
    ensures forall p | p in ps :: WellFormed(p)
    ensures Lex(WhereClause(fs) + rest) == When(forall p | p in ps :: LegalNames(p), WhereTokens(ps), Lex(rest))
  {
    hide Lex, Join, FragmentFor, WellFormed, LegalNames, ConjunctTokens;
    if fs == [] {
      assert "" + rest == rest;
      PrependNothing(Lex(rest));
    } else {
      LexConjuncts(fs, ps, rest);
      WhereSpelling(fs, rest);
      hide FragmentsFor, WhereClause;
      var body := Join(fs, " AND ") + rest;
      LexKeyword(WHERE, " " + body);
      LexSpace(body);
      PrependTwice([Key(WHERE)], ConjunctTokens(ps), Lex(rest));
    }
  }

  lemma PrependNothing(o: Option<seq<Token>>)
    ensures Prepend([], o) == o
  {
    if o.Some? {
      assert [] + o.value == o.value;
    }
  }

  lemma LexLimit(limit: Option<nat>, rest: string)
    requires Breaks(rest)
    ensures Lex(LimitClause(limit) + rest) == Prepend(LimitTokens(limit), Lex(rest))
  {
    hide Lex;
    if limit.None? {
      assert "" + rest == rest;
      PrependNothing(Lex(rest));
    } else {
      var number := Decimal.Digits(limit.value) + rest;
      assert LimitClause(limit) + rest == " " + "LIMIT" + (" " + number) by {
        Reassociate(" LIMIT ", Decimal.Digits(limit.value), rest);
        assert " LIMIT " == " " + "LIMIT" + " ";
      }
      LexKeyword(LIMIT, " " + number);
      LexSpace(number);
      LexNum(limit.value, rest);
      PrependTwice([Key(LIMIT)], [Num(limit.value)], Lex(rest));
      assert [Key(LIMIT)] + [Num(limit.value)] == [Key(LIMIT), Num(limit.value)];
    }
  }

  /** Relation, `WHERE` and `LIMIT` in front of `rest`. */
  lemma LexSource(s: Statement, fs: seq<string>, rest: string)
    requires FragmentsFor(fs, s.conjuncts) && Breaks(rest)
    ensures forall p | p in s.conjuncts :: WellFormed(p)
    ensures Lex(QuoteRelation(s.schemaName, s.tableName) + (WhereClause(fs) + (LimitClause(s.limit) + rest)))
         == When(LegalName(s.schemaName) && LegalName(s.tableName) && (forall p | p in s.conjuncts :: LegalNames(p)),
                 SourceTokens(s), Lex(rest))
  {
    hide Lex, QuoteIdent;
    var tail := LimitClause(s.limit) + rest;
    LexLimit(s.limit, rest);
    LexWhere(fs, s.conjuncts, tail);
    var clauses := WhereClause(fs) + tail;
    assert QuoteRelation(s.schemaName, s.tableName) + clauses
        == QuoteIdent(s.schemaName) + ("." + (QuoteIdent(s.tableName) + clauses)) by {
      Reassociate(QuoteIdent(s.schemaName) + ".", QuoteIdent(s.tableName), clauses);
      Reassociate(QuoteIdent(s.schemaName), ".", QuoteIdent(s.tableName) + clauses);
    }
    LexQuotedIdent(s.schemaName, "." + (QuoteIdent(s.tableName) + clauses));
    LexPunct('.', QuoteIdent(s.tableName) + clauses);
    LexQuotedIdent(s.tableName, clauses);
    SourcePrepends(s, Lex(rest));
  }

  lemma SourcePrepends(s: Statement, o: Option<seq<Token>>)
    requires forall p | p in s.conjuncts :: WellFormed(p)
    ensures Prepend([Ident(s.schemaName)], Prepend([Punct('.')], Prepend([Ident(s.tableName)],
              Prepend(WhereTokens(s.conjuncts), Prepend(LimitTokens(s.limit), o)))))
         == Prepend(SourceTokens(s), o)
  {
    var w, l := WhereTokens(s.conjuncts), LimitTokens(s.limit);
    PrependTwice(w, l, o);
    PrependTwice([Ident(s.tableName)], w + l, o);
    PrependTwice([Punct('.')], [Ident(s.tableName)] + (w + l), o);
    PrependTwice([Ident(s.schemaName)], [Punct('.')] + ([Ident(s.tableName)] + (w + l)), o);
  }

  lemma ColumnScanSpelling(columns: string, source: string)
    ensures "SELECT " + columns + " FROM " + source == "SELECT" + (" " + (columns + (" " + "FROM" + (" " + source))))
  {
    var from := " " + "FROM" + (" " + source);
    Reassociate("SELECT " + columns, " FROM ", source);
    Reassociate("SELECT ", columns, " FROM " + source);
    assert " FROM " + source == from;
    assert "SELECT " == "SELECT" + " ";
    Reassociate("SELECT", " ", columns + from);
  }

  /** `SELECT columns FROM source`. */
  lemma LexColumnScan(s: Statement, columns: string, source: string)
    requires s.projection.Columns? && s.projection.names != [] && (forall p | p in s.conjuncts :: WellFormed(p))
    requires columns == Join(QuoteAll(s.projection.names), ", ")
    requires Lex(source) == When(LegalName(s.schemaName) && LegalName(s.tableName) && (forall p | p in s.conjuncts :: LegalNames(p)),
                                 SourceTokens(s), Some([]))
    ensures Lex("SELECT " + columns + " FROM " + source) == When(LegalStatement(s), StatementTokens(s), Some([]))
  {
    hide Lex, QuoteIdent, Join, QuoteAll, SourceTokens, ColumnTokens, LegalName, LegalNames, WellFormed;
    var from := " " + "FROM" + (" " + source);
    ColumnScanSpelling(columns, source);
    LexKey(SELECT, " " + (columns + from));
    LexSpace(columns + from);
    LexColumns(s.projection.names, from);
    LexKeyword(FROM, " " + source);
    LexSpace(source);
    var st, ct := SourceTokens(s), ColumnTokens(s.projection.names);
    ColumnScanPrepends(ct, st, Some([]));
  }

  lemma ColumnScanPrepends(ct: seq<Token>, st: seq<Token>, o: Option<seq<Token>>)
    ensures Prepend([Key(SELECT)], Prepend(ct, Prepend([Key(FROM)], Prepend(st, o)))) == Prepend([Key(SELECT)] + ct + [Key(FROM)] + st, o)
  {
    PrependTwice([Key(FROM)], st, o);
    PrependTwice(ct, [Key(FROM)] + st, o);
    PrependTwice([Key(SELECT)], ct + ([Key(FROM)] + st), o);
    Reassociate([Key(SELECT)] + ct, [Key(FROM)], st);
    Reassociate([Key(SELECT)], ct, [Key(FROM)] + st);
  }

  lemma LexCountStar(after: string)
    requires Breaks(after)
    ensures Lex("SELECT COUNT(*)" + after)
         == Prepend([Key(SELECT)], Prepend([Key(COUNT)], Prepend([Punct('(')], Prepend([Op(Star)], Prepend([Punct(')')], Lex(after))))))
  {
    hide Lex;
    var t4 := ")" + after;
    var t3 := "*" + t4;
    var t2 := "(" + t3;
    var t1 := " " + "COUNT" + t2;
    LexPunct(')', after);
    LexOp("*", t4);
    LexPunct('(', t3);
    LexKeyword(COUNT, t2);
    LexKey(SELECT, t1);
    assert "SELECT COUNT(*)" + after == "SELECT" + t1 by {
      assert "SELECT COUNT(*)" == "SELECT" + (" COUNT" + "(*)");
      Reassociate("SELECT", " COUNT" + "(*)", after);
      Reassociate(" COUNT", "(*)", after);
      assert "(*)" + after == t2;
      assert " COUNT" == " " + "COUNT";
    }
  }

  lemma SelectOneSpelling(source: string)
    ensures var t5 := " " + "FROM" + (" " + source);
      " FROM (SELECT 1 FROM " + source == " " + "FROM" + (" " + ("(" + ("SELECT" + (" " + ("1" + t5)))))
  {
    var t5 := " " + "FROM" + (" " + source);
    var t3 := "SELECT" + (" " + ("1" + t5));
    assert " FROM (SELECT 1 FROM " == " FROM (" + ("SELECT 1" + " FROM ");
    Reassociate(" FROM (", "SELECT 1" + " FROM ", source);
    Reassociate("SELECT 1", " FROM ", source);
    assert " FROM " + source == t5;
    assert "SELECT 1" + t5 == t3;
    assert " FROM (" == " FROM" + " (";
    Reassociate(" FROM", " (", t3);
    assert " (" + t3 == " " + ("(" + t3);
    assert " FROM" == " " + "FROM";
  }

  lemma LexSelectOne(source: string)
    ensures Lex(" FROM (SELECT 1 FROM " + source)
         == Prepend([Key(FROM)], Prepend([Punct('(')], Prepend([Key(SELECT)], Prepend([Num(1)], Prepend([Key(FROM)], Lex(source))))))
  {
    hide Lex;
    var t5 := " " + "FROM" + (" " + source);
    var t4 := "1" + t5;
    var t3 := "SELECT" + (" " + t4);
    var t2 := "(" + t3;
    LexKeyword(FROM, " " + source);
    LexSpace(source);
    assert Decimal.Digits(1) == "1";
    LexNum(1, t5);
    LexKey(SELECT, " " + t4);
    LexSpace(t4);
    LexPunct('(', t3);
    LexKeyword(FROM, " " + t2);
    LexSpace(t2);
    SelectOneSpelling(source);
  }

  lemma LexCountHead(source: string)
    ensures Lex("SELECT COUNT(*) FROM (SELECT 1 FROM " + source) == Prepend([Key(SELECT)] + COUNT_HEAD, Lex(source))
  {
    hide Lex;
    LexSelectOne(source);
    LexCountStar(" FROM (SELECT 1 FROM " + source);
    assert "SELECT COUNT(*) FROM (SELECT 1 FROM " == "SELECT COUNT(*)" + " FROM (SELECT 1 FROM ";
    Reassociate("SELECT COUNT(*)", " FROM (SELECT 1 FROM ", source);
    CountHeadPrepends(Lex(source));
  }

  lemma CountHeadPrepends(o: Option<seq<Token>>)
    ensures Prepend([Key(SELECT)], Prepend([Key(COUNT)], Prepend([Punct('(')], Prepend([Op(Star)], Prepend([Punct(')')],
              Prepend([Key(FROM)], Prepend([Punct('(')], Prepend([Key(SELECT)], Prepend([Num(1)], Prepend([Key(FROM)], o))))))))))
         == Prepend([Key(SELECT)] + COUNT_HEAD, o)
  {
    if o.Some? {
      assert [Key(SELECT)] + ([Key(COUNT)] + ([Punct('(')] + ([Op(Star)] + ([Punct(')')] + ([Key(FROM)] + ([Punct('(')]
             + ([Key(SELECT)] + ([Num(1)] + ([Key(FROM)] + o.value)))))))))
          == ([Key(SELECT)] + COUNT_HEAD) + o.value;
    }
  }

  lemma LexEmpty()
    ensures Lex("") == Some([])
  {
  }

  lemma LexCountTail()
    ensures Lex(") AS t") == Some(COUNT_TAIL)
  {
    hide Lex;
    var t1 := " " + ("t" + "");
    LexWord("t", "");
    LexSpace("t" + "");
    LexKeyword(AS, t1);
    LexPunct(')', " " + "AS" + t1);
    assert ") AS t" == ")" + (" " + "AS" + t1);
    LexEmpty();
    assert [Punct(')')] + ([Key(AS)] + ([Bare("t")] + [])) == COUNT_TAIL;
  }

  /** The text a scan sends, as one clause after another. */
  lemma ScanSqlClauses(t: Source, projected: seq<string>, filters: seq<Expr>, limit: Option<nat>)
    ensures var conjuncts := if t.filterPushdown then TranslateAll(filters, t.schema) else [];
      var rest := if projected == [] then ") AS t" else "";
      var source := QuoteRelation(t.schemaName, t.tableName)
                    + (WhereClause(conjuncts) + (LimitClause(PushedLimit(limit, |conjuncts|, |filters|)) + rest));
      ScanSql(t, projected, filters, limit)
      == if projected == [] then "SELECT COUNT(*) FROM (SELECT 1 FROM " + source
         else "SELECT " + Join(QuoteAll(projected), ", ") + " FROM " + source
  {
    hide Join, QuoteIdent, Decimal.Spell;
    var conjuncts := if t.filterPushdown then TranslateAll(filters, t.schema) else [];
    var r, w, l := QuoteRelation(t.schemaName, t.tableName), WhereClause(conjuncts),
                   LimitClause(PushedLimit(limit, |conjuncts|, |filters|));
    var head := if projected == [] then "SELECT COUNT(*) FROM (SELECT 1 FROM "
                else "SELECT " + Join(QuoteAll(projected), ", ") + " FROM ";
    if projected == [] {
      Reassociate(head + r + w, l, ") AS t");
      Reassociate(head + r, w, l + ") AS t");
      Reassociate(head, r, w + (l + ") AS t"));
    } else {
      assert l + "" == l;
      Reassociate(head + r, w, l);
      Reassociate(head, r, w + l);
    }
  }

  lemma IntendedAllIsWellFormed(filters: seq<Expr>, schema: Schema)
    ensures forall p | p in IntendedAll(filters, schema) :: WellFormed(p)
    ensures |IntendedAll(filters, schema)| == |TranslateAll(filters, schema)|
  {
    TranslationsAreFragments(filters, schema);
    var ps := IntendedAll(filters, schema);
    forall p | p in ps ensures WellFormed(p) {
      var i :| 0 <= i < |ps| && ps[i] == p;
      assert FragmentFor(TranslateAll(filters, schema)[i], ps[i]);
    }
  }

  /** The text of both forms, lexed. */
  lemma LexScan(t: Source, projected: seq<string>, filters: seq<Expr>, limit: Option<nat>)
    ensures StatementWellFormed(IntendedScan(t, projected, filters, limit))
    ensures var s := IntendedScan(t, projected, filters, limit);
      Lex(ScanSql(t, projected, filters, limit)) == if LegalStatement(s) then Some(StatementTokens(s)) else None
  {
    hide Lex, QuoteRelation, WhereClause, LimitClause, TranslateAll, IntendedAll, WellFormed, LegalNames, LegalName,
      SourceTokens, FragmentFor, ScanSql, Join, QuoteAll;
    var s := IntendedScan(t, projected, filters, limit);
    var fs := if t.filterPushdown then TranslateAll(filters, t.schema) else [];
    TranslationsAreFragments(filters, t.schema);
    IntendedAllIsWellFormed(filters, t.schema);
    ScanSqlClauses(t, projected, filters, limit);
    var rest := if projected == [] then ") AS t" else "";
    LexSource(s, fs, rest);
    var source := QuoteRelation(t.schemaName, t.tableName) + (WhereClause(fs) + (LimitClause(s.limit) + rest));
    if projected == [] {
      LexCountTail();
      LexCountScan(s, source);
    } else {
      LexEmpty();
      LexColumnScan(s, Join(QuoteAll(projected), ", "), source);
      PrependNothing(Some(StatementTokens(s)));
      assert StatementTokens(s) + [] == StatementTokens(s);
    }
  }

  /** `SELECT COUNT(*) FROM (SELECT 1 FROM source) AS t`. */
  lemma LexCountScan(s: Statement, source: string)
    requires s.projection.CountRows? && (forall p | p in s.conjuncts :: WellFormed(p))
    requires Lex(source) == When(LegalName(s.schemaName) && LegalName(s.tableName) && (forall p | p in s.conjuncts :: LegalNames(p)),
                                 SourceTokens(s), Some(COUNT_TAIL))
    ensures Lex("SELECT COUNT(*) FROM (SELECT 1 FROM " + source) == if LegalStatement(s) then Some(StatementTokens(s)) else None
  {
    hide Lex, WellFormed, LegalNames, LegalName, SourceTokens;
    LexCountHead(source);
    var st := SourceTokens(s);
    Reassociate([Key(SELECT)] + COUNT_HEAD, st, COUNT_TAIL);
  }

  /**
   For any names, filters and limit, on both the column and the `COUNT(*)` form:
   PostgreSQL reads the emitted text as exactly the intended projection,
   relation, conjuncts and limit. It reads it at all exactly when every name in
   it is one a delimited identifier can carry.
   */
  lemma StatementReadsBack(t: Source, projected: seq<string>, filters: seq<Expr>, limit: Option<nat>)
    ensures ReadStatement(ScanSql(t, projected, filters, limit))
         == if LegalStatement(IntendedScan(t, projected, filters, limit)) then Some(IntendedScan(t, projected, filters, limit)) else None
  {
    hide Lex, ReadTokens, ScanSql, IntendedScan, StatementTokens, LegalStatement, StatementWellFormed;
    LexScan(t, projected, filters, limit);
    var s := IntendedScan(t, projected, filters, limit);
    if LegalStatement(s) {
      ReadsStatement(s);
    }
  }
}
