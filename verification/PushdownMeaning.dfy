/** A translated filter has, on every row, the truth value of the original expression. */
module PushdownMeaning {
  import opened Options
  import opened Values
  import opened DataFusion
  import opened Pushdown
  import opened PushdownText
  import opened SqlSyntax
  import P = Postgres
  import SqlLexer

  // ---- What is asked of a filter: DataFusion's planner types it, and its text columns are plain text ----

  predicate Fits(ty: Option<ColumnType>, v: ScalarValue) {
    match ty
    case Some(BooleanColumn) => v.BooleanScalar?
    case Some(IntegerColumn) => v.IntegerScalar?
    case Some(TextColumn) | Some(TextLikeColumn) => v.StringScalar?
    case _ => false
  }

  /** Each column meets only literals of its own type, as DataFusion's type coercion leaves it. */
  predicate WellTyped(e: Expr, schema: Schema) {
    match e
    case BinaryExpr(l, op, r) =>
      if op == And then WellTyped(l, schema) && WellTyped(r, schema)
      else if l.Column? && r.Literal? then Fits(TypeOf(schema, l.name), r.value)
      else if l.Literal? && r.Column? then Fits(TypeOf(schema, r.name), l.value)
      else true
    case InList(arg, list, _) =>
      arg.Column? ==> forall i | 0 <= i < |list| && list[i].Literal? :: Fits(TypeOf(schema, arg.name), list[i].value)
    case _ => true
  }

  /** No column PostgreSQL compares by other rules than text is compared with a literal. */
  predicate ComparesPlainColumns(e: Expr, schema: Schema) {
    match e
    case BinaryExpr(l, op, r) =>
      if op == And then ComparesPlainColumns(l, schema) && ComparesPlainColumns(r, schema)
      else if l.Column? && r.Literal? then TypeOf(schema, l.name) != Some(TextLikeColumn)
      else if l.Literal? && r.Column? then TypeOf(schema, r.name) != Some(TextLikeColumn)
      else true
    case InList(arg, _, _) => arg.Column? ==> TypeOf(schema, arg.name) != Some(TextLikeColumn)
    case _ => true
  }

  predicate Comparable(e: Expr, schema: Schema) {
    WellTyped(e, schema) && ComparesPlainColumns(e, schema)
  }

  // ---- One comparison ----

  lemma ColumnHasItsType(schema: Schema, name: string, row: Row)
    requires HasColumn(schema, name) && Conforms(row, schema)
    ensures HasType(Get(row, name), TypeOf(schema, name).value)
  {
    var i :| 0 <= i < |schema| && schema[i] == Field(name, TypeOf(schema, name).value);
  }

  /** Local comparison and PostgreSQL's agree on the pushed side of the gate, whatever the collation. */
  lemma ComparisonMeansTheSame(engine: Engine, server: P.Server, schema: Schema, name: string, op: Operator, v: ScalarValue, row: Row)
    requires P.Deterministic(server)
    requires IntendedComparison(name, op, v, schema).Some? && Conforms(row, schema)
    requires Fits(TypeOf(schema, name), v) && TypeOf(schema, name) != Some(TextLikeColumn)
    ensures CompareValues(engine, op, Get(row, name), ScalarToValue(v))
         == TriValue(P.Test(server, schema, IntendedComparison(name, op, v, schema).value, row))
  {
    ColumnHasItsType(schema, name, row);
  }

  /** Exchanging the operands and flipping the operator changes no comparison. */
  lemma FlippedComparison(engine: Engine, op: Operator, a: Value, b: Value)
    requires ComparisonOpSql(op).Some?
    requires a.Null? || b.Null? || (a.Boolean? && b.Boolean?) || (a.Integer? && b.Integer?) || (a.Text? && b.Text?)
    ensures CompareValues(engine, op, a, b) == CompareValues(engine, FlipOperator(op), b, a)
  {
  }

  // ---- IN lists ----

  lemma {:induction false} MembershipMeansTheSame(
      engine: Engine, server: P.Server, schema: Schema, name: string, list: seq<Expr>, items: seq<Value>, row: Row)
    requires P.Deterministic(server)
    requires IntendedConstants(list).Some? && |items| == |list| && Conforms(row, schema)
    requires HasColumn(schema, name) && TypeOf(schema, name) != Some(TextLikeColumn)
    requires forall i | 0 <= i < |list| :: list[i].Literal? && items[i] == ScalarToValue(list[i].value)
    requires forall i | 0 <= i < |list| :: Fits(TypeOf(schema, name), list[i].value)
    ensures list != [] ==>
      Contains(engine, Get(row, name), items, false)
      == TriValue(P.IsMember(server, schema, name, Get(row, name), IntendedConstants(list).value))
    ensures P.IsMember(server, schema, name, Get(row, name), IntendedConstants(list).value) != Unknown || Get(row, name).Null?
    ensures !Get(row, name).Null? ==>
      (P.IsMember(server, schema, name, Get(row, name), IntendedConstants(list).value) == True
       <==> exists k | 0 <= k < |items| :: CompareValues(engine, Eq, Get(row, name), items[k]) == Boolean(true))
  {
    hide CompareValues, P.CompareTo, P.Deterministic, Conforms, Fits, IntendedConstant, LiteralSql, HasColumn, TypeOf;
    var v := Get(row, name);
    IntendedPointwise(list);
    if list != [] {
      var cs := IntendedConstants(list).value;
      assert cs[1..] == IntendedConstants(list[1..]).value;
      MembershipMeansTheSame(engine, server, schema, name, list[1..], items[1..], row);
      ItemMeansTheSame(engine, server, schema, name, list[0].value, row);
      if !v.Null? {
        var head := CompareValues(engine, Eq, v, items[0]);
        if exists k | 0 <= k < |items| :: CompareValues(engine, Eq, v, items[k]) == Boolean(true) {
          var k :| 0 <= k < |items| && CompareValues(engine, Eq, v, items[k]) == Boolean(true);
          assert k > 0 ==> items[1..][k - 1] == items[k];
        }
        forall k | 0 <= k < |items| ensures CompareValues(engine, Eq, v, items[k]) != Value.Null {
          ItemMeansTheSame(engine, server, schema, name, list[k].value, row);
        }
        if exists k | 0 <= k < |items| - 1 :: CompareValues(engine, Eq, v, items[1..][k]) == Boolean(true) {
          var k :| 0 <= k < |items| - 1 && CompareValues(engine, Eq, v, items[1..][k]) == Boolean(true);
          assert items[k + 1] == items[1..][k];
        }
      }
    }
  }

  lemma ItemMeansTheSame(engine: Engine, server: P.Server, schema: Schema, name: string, v: ScalarValue, row: Row)
    requires P.Deterministic(server)
    requires HasColumn(schema, name) && TypeOf(schema, name) != Some(TextLikeColumn) && Conforms(row, schema)
    requires Fits(TypeOf(schema, name), v) && LiteralSql(v).Some?
    ensures IntendedConstant(v).Some?
    ensures CompareValues(engine, Eq, Get(row, name), ScalarToValue(v))
         == TriValue(P.CompareTo(server, schema, name, Equal, Get(row, name), IntendedConstant(v).value))
    ensures CompareValues(engine, Eq, Get(row, name), ScalarToValue(v)) == Value.Null <==> Get(row, name).Null?
  {
    ColumnHasItsType(schema, name, row);
  }

  // ---- The whole filter ----

  /** By induction over the filter: same three-valued result on every row, under every collation. */
  lemma {:induction false} IntendedMeansTheSame(engine: Engine, server: P.Server, schema: Schema, e: Expr, row: Row)
    requires P.Deterministic(server)
    requires Intended(e, schema).Some? && Comparable(e, schema) && Conforms(row, schema)
    ensures Eval(engine, e, row) == TriValue(P.Test(server, schema, Intended(e, schema).value, row))
    decreases e
  {
    hide P.Deterministic, Conforms, CompareValues, P.CompareTo, IntendedComparison, Fits, TypeOf, HasColumn;
    match e
    case BinaryExpr(l, op, r) =>
      if op == And {
        IntendedMeansTheSame(engine, server, schema, l, row);
        IntendedMeansTheSame(engine, server, schema, r, row);
      } else {
        ComparisonFilterMeansTheSame(engine, server, schema, e, row);
      }
    case InList(arg, list, negated) => InListMeansTheSame(engine, server, schema, e, row);
    case _ =>
  }

  lemma ComparisonFilterMeansTheSame(engine: Engine, server: P.Server, schema: Schema, e: Expr, row: Row)
    requires P.Deterministic(server)
    requires e.BinaryExpr? && e.op != And && Intended(e, schema).Some? && Comparable(e, schema) && Conforms(row, schema)
    ensures Eval(engine, e, row) == TriValue(P.Test(server, schema, Intended(e, schema).value, row))
  {
    hide P.Deterministic, Conforms, CompareValues, P.CompareTo, P.Test, HasType, TypeOf, HasColumn;
    var l, op, r := e.left, e.op, e.right;
    if l.Column? && r.Literal? {
      ComparisonMeansTheSame(engine, server, schema, l.name, op, r.value, row);
    } else {
      LiteralFitsColumn(schema, r.name, FlipOperator(op), l.value, row);
      FlippedComparison(engine, op, ScalarToValue(l.value), Get(row, r.name));
      ComparisonMeansTheSame(engine, server, schema, r.name, FlipOperator(op), l.value, row);
    }
  }

  /** A literal that fits a column has the type of the column's values. */
  lemma LiteralFitsColumn(schema: Schema, name: string, op: Operator, v: ScalarValue, row: Row)
    requires IntendedComparison(name, op, v, schema).Some? && Fits(TypeOf(schema, name), v) && Conforms(row, schema)
    ensures var a, b := ScalarToValue(v), Get(row, name);
      a.Null? || b.Null? || (a.Boolean? && b.Boolean?) || (a.Integer? && b.Integer?) || (a.Text? && b.Text?)
  {
    ColumnHasItsType(schema, name, row);
  }

  /** PostgreSQL takes every test of plain columns. */
  lemma {:induction false} PlainTestsAreNeverRefused(server: P.Server, schema: Schema, e: Expr)
    requires Intended(e, schema).Some? && ComparesPlainColumns(e, schema)
    ensures !P.Refuses(server, schema, Intended(e, schema).value)
    decreases e
  {
    hide TypeOf, HasColumn;
    if e.BinaryExpr? && e.op == And {
      PlainTestsAreNeverRefused(server, schema, e.left);
      PlainTestsAreNeverRefused(server, schema, e.right);
    }
  }

  lemma InListMeansTheSame(engine: Engine, server: P.Server, schema: Schema, e: Expr, row: Row)
    requires P.Deterministic(server)
    requires e.InList? && Intended(e, schema).Some? && Comparable(e, schema) && Conforms(row, schema)
    ensures Eval(engine, e, row) == TriValue(P.Test(server, schema, Intended(e, schema).value, row))
  {
    var list := e.list;
    IntendedPointwise(list);
    var items := seq(|list|, i requires 0 <= i < |list| => Eval(engine, list[i], row));
    MembershipMeansTheSame(engine, server, schema, e.expr.name, list, items, row);
  }

  /**
   The fragment a filter translates to reads back as a predicate that PostgreSQL
   takes, with the filter's truth value on every row of the table; it reads back at all exactly
   when the columns it names are names PostgreSQL accepts.
   */
  lemma FilterTextMeansTheSame(engine: Engine, server: P.Server, schema: Schema, e: Expr, row: Row)
    requires P.Deterministic(server)
    requires TranslateFilter(e, schema).Some? && Comparable(e, schema) && Conforms(row, schema)
    ensures ReadPredicate(TranslateFilter(e, schema).value).Some? <==> forall c | c in ColumnsOf(e) :: LegalName(c)
    ensures (forall c | c in ColumnsOf(e) :: LegalName(c)) ==>
      && P.Judge(server, schema, ReadPredicate(TranslateFilter(e, schema).value).value, row).Some?
      && Eval(engine, e, row) == TriValue(P.Judge(server, schema, ReadPredicate(TranslateFilter(e, schema).value).value, row).value)
  {
    var sql := TranslateFilter(e, schema).value;
    FragmentReads(e, schema, "");
    assert sql + "" == sql;
    var p := Intended(e, schema).value;
    LegalNamesAreTheColumns(e, schema);
    IntendedMeansTheSame(engine, server, schema, e, row);
    PlainTestsAreNeverRefused(server, schema, e);
    if LegalNames(p) {
      assert SqlLexer.Lex(sql) == Some(PredicateTokens(p) + []);
      ReadsPrimary(p, []);
      ReadsLastConjunct(PredicateTokens(p) + [], p, []);
    }
  }

  /** The names a fragment quotes are the columns its filter reads, all of them columns of the table. */
  lemma {:induction false} LegalNamesAreTheColumns(e: Expr, schema: Schema)
    requires Intended(e, schema).Some?
    ensures LegalNames(Intended(e, schema).value) <==> forall c | c in ColumnsOf(e) :: LegalName(c)
    ensures P.ColumnsNamed(Intended(e, schema).value) == ColumnsOf(e)
    ensures forall c | c in ColumnsOf(e) :: HasColumn(schema, c)
    decreases e
  {
    match e
    case BinaryExpr(l, op, r) =>
      if op == And {
        LegalNamesAreTheColumns(l, schema);
        LegalNamesAreTheColumns(r, schema);
      } else {
        assert ColumnsOf(e) == {if l.Column? then l.name else r.name};
      }
    case InList(arg, list, _) =>
      IntendedPointwise(list);
      assert ColumnsOf(e) == {arg.name};
    case _ =>
  }

  // ---- Text-like columns: what a pushed test may still lose ----

  /** The filter excludes no value of a text-like column: it has no `<>` and no `NOT IN` on one. */
  predicate ExcludesNoTextLike(e: Expr, schema: Schema) {
    match e
    case BinaryExpr(l, op, r) =>
      if op == And then ExcludesNoTextLike(l, schema) && ExcludesNoTextLike(r, schema)
      else if l.Column? && r.Literal? then op == NotEq ==> TypeOf(schema, l.name) != Some(TextLikeColumn)
      else if l.Literal? && r.Column? then op == NotEq ==> TypeOf(schema, r.name) != Some(TextLikeColumn)
      else true
    case InList(arg, _, negated) => arg.Column? && negated ==> TypeOf(schema, arg.name) != Some(TextLikeColumn)
    case _ => true
  }

  /** A translated test of a text-like column: `=`, `<>`, `IN` or `NOT IN` against string constants. */
  predicate TestsTextLike(e: Expr, schema: Schema) {
    && Intended(e, schema).Some? && WellTyped(e, schema) && !Intended(e, schema).value.Both?
    && (Intended(e, schema).value.Compare? || Intended(e, schema).value.Member?)
    && TypeOf(schema, Intended(e, schema).value.column) == Some(TextLikeColumn)
  }

  /** Whether a test keeps the values that differ from its constants. */
  predicate Excludes(p: Predicate) {
    (p.Compare? && p.op == NotEqual) || (p.Member? && p.negated)
  }

  /** The constants a test compares its column with. */
  function ItemsOf(p: Predicate): seq<Constant> {
    match p
    case Compare(_, _, c) => [c]
    case Member(_, _, items) => items
    case _ => []
  }

  /** PostgreSQL finds the text equal to one of the constants. */
  predicate OwnEqualToSome(server: P.Server, column: string, v: string, items: seq<Constant>) {
    exists c | c in items :: c.TextConst? && server.ownEqual(column, v, c.s)
  }

  lemma {:induction false} OwnMembership(server: P.Server, schema: Schema, column: string, v: string, items: seq<Constant>)
    requires TypeOf(schema, column) == Some(TextLikeColumn) && forall c | c in items :: c.TextConst?
    ensures P.IsMember(server, schema, column, Text(v), items) == OfBool(OwnEqualToSome(server, column, v, items))
  {
    if items != [] {
      var rest := items[1..];
      assert items == [items[0]] + rest;
      OwnMembership(server, schema, column, v, rest);
      assert items[0] in items && forall c | c in rest :: c in items;
    }
  }

  /** The constants an `IN` list translates to, one by one. */
  lemma {:induction false} ConstantsPointwise(list: seq<Expr>)
    requires IntendedConstants(list).Some?
    ensures |IntendedConstants(list).value| == |list|
    ensures forall i | 0 <= i < |list| :: list[i].Literal? && IntendedConstant(list[i].value) == Some(IntendedConstants(list).value[i])
  {
    if list != [] {
      ConstantsPointwise(list[1..]);
    }
  }

  /** Whether a text, literally, is one of the constants. */
  predicate IsItem(v: string, items: seq<Constant>) {
    exists c | c in items :: c == TextConst(v)
  }

  /** The local engine asks for the very text, PostgreSQL for a text of equal value. */
  lemma TextLikeTestMeans(engine: Engine, server: P.Server, schema: Schema, e: Expr, row: Row)
    requires TestsTextLike(e, schema) && Conforms(row, schema)
    ensures var p := Intended(e, schema).value;
      && ItemsOf(p) != [] && (forall c | c in ItemsOf(p) :: c.TextConst?)
      && match Get(row, p.column)
         case Text(v) =>
           && Eval(engine, e, row) == Boolean(IsItem(v, ItemsOf(p)) != Excludes(p))
           && P.Test(server, schema, p, row) == OfBool(OwnEqualToSome(server, p.column, v, ItemsOf(p)) != Excludes(p))
         case _ => Eval(engine, e, row) == Value.Null && P.Test(server, schema, p, row) == Unknown
  {
    var p := Intended(e, schema).value;
    ColumnHasItsType(schema, p.column, row);
    if p.Member? {
      TextLikeMembershipMeans(engine, server, schema, e, row);
    } else {
      TextLikeComparisonMeans(engine, server, schema, e, row);
    }
  }

  lemma TextLikeComparisonMeans(engine: Engine, server: P.Server, schema: Schema, e: Expr, row: Row)
    requires TestsTextLike(e, schema) && Intended(e, schema).value.Compare?
    requires Get(row, Intended(e, schema).value.column).Null? || Get(row, Intended(e, schema).value.column).Text?
    ensures var p := Intended(e, schema).value;
      && p.constant.TextConst?
      && match Get(row, p.column)
         case Text(v) =>
           && Eval(engine, e, row) == Boolean(IsItem(v, [p.constant]) != Excludes(p))
           && P.Test(server, schema, p, row) == OfBool(OwnEqualToSome(server, p.column, v, [p.constant]) != Excludes(p))
         case _ => Eval(engine, e, row) == Value.Null && P.Test(server, schema, p, row) == Unknown
  {
    hide HasColumn;
    var p := Intended(e, schema).value;
    assert p.constant in [p.constant];
  }

  lemma TextLikeMembershipMeans(engine: Engine, server: P.Server, schema: Schema, e: Expr, row: Row)
    requires TestsTextLike(e, schema) && Intended(e, schema).value.Member?
    requires Get(row, Intended(e, schema).value.column).Null? || Get(row, Intended(e, schema).value.column).Text?
    ensures var p := Intended(e, schema).value;
      && p.items != [] && (forall c | c in p.items :: c.TextConst?)
      && match Get(row, p.column)
         case Text(v) =>
           && Eval(engine, e, row) == Boolean(IsItem(v, p.items) != Excludes(p))
           && P.Test(server, schema, p, row) == OfBool(OwnEqualToSome(server, p.column, v, p.items) != Excludes(p))
         case _ => Eval(engine, e, row) == Value.Null && P.Test(server, schema, p, row) == Unknown
  {
    hide IsItem, OwnEqualToSome, Contains, TypeOf, HasColumn;
    var p, list := Intended(e, schema).value, e.list;
    ConstantsPointwise(list);
    var items := seq(|list|, i requires 0 <= i < |list| => Eval(engine, list[i], row));
    assert forall i | 0 <= i < |list| :: items[i] == Text(p.items[i].s) && p.items[i].TextConst?;
    assert Eval(engine, e, row) == Contains(engine, Get(row, p.column), items, e.negated);
    hide IntendedConstant, Eval, Fits;
    if Get(row, p.column).Text? {
      var v := Get(row, p.column).s;
      OwnMembership(server, schema, p.column, v, p.items);
      ContainsText(engine, v, items, p.items, e.negated);
    } else {
      NullMembership(server, schema, p.column, p.items);
      NullIsContained(engine, items, e.negated);
    }
  }

  lemma NullIsContained(engine: Engine, values: seq<Value>, negated: bool)
    ensures Contains(engine, Value.Null, values, negated) == Value.Null
  {
  }

  lemma ContainsText(engine: Engine, v: string, values: seq<Value>, items: seq<Constant>, negated: bool)
    requires |values| == |items| && forall i | 0 <= i < |items| :: items[i].TextConst? && values[i] == Text(items[i].s)
    ensures Contains(engine, Text(v), values, negated) == Boolean(IsItem(v, items) != negated)
  {
    forall k | 0 <= k < |values| ensures CompareValues(engine, Eq, Text(v), values[k]) == Boolean(items[k] == TextConst(v)) {
    }
    if IsItem(v, items) {
      var k :| 0 <= k < |items| && items[k] == TextConst(v);
      assert CompareValues(engine, Eq, Text(v), values[k]) == Boolean(true);
    } else {
      forall k | 0 <= k < |values| ensures CompareValues(engine, Eq, Text(v), values[k]) == Boolean(false) {
        assert items[k] in items;
      }
    }
  }

  lemma {:induction false} NullMembership(server: P.Server, schema: Schema, column: string, items: seq<Constant>)
    requires items != []
    ensures P.IsMember(server, schema, column, Value.Null, items) == Unknown
  {
    if |items| > 1 {
      NullMembership(server, schema, column, items[1..]);
    } else {
      assert P.IsMember(server, schema, column, Value.Null, items[1..]) == False;
    }
  }

  /**
   The standard the translator sets itself, also for `=` and `IN` on text-like
   columns: PostgreSQL keeps every row the filter accepts, exactly if it takes the
   filter's constants at all.
   */
  lemma PushedKeepsAccepted(engine: Engine, server: P.Server, schema: Schema, e: Expr, row: Row)
    requires P.Deterministic(server) && P.EquatesSoundly(server)
    requires Intended(e, schema).Some? && WellTyped(e, schema) && ExcludesNoTextLike(e, schema) && Conforms(row, schema)
    ensures Eval(engine, e, row) == Boolean(true) ==>
      (P.Judge(server, schema, Intended(e, schema).value, row) == Some(True) <==> !P.Refuses(server, schema, Intended(e, schema).value))
  {
    hide P.Deterministic, P.EquatesSoundly, Conforms, WellTyped, ExcludesNoTextLike, Intended, Eval, P.Test, P.Refuses;
    TakenTestKeepsAccepted(engine, server, schema, e, row);
  }

  lemma {:induction false} TakenTestKeepsAccepted(engine: Engine, server: P.Server, schema: Schema, e: Expr, row: Row)
    requires P.Deterministic(server) && P.EquatesSoundly(server)
    requires Intended(e, schema).Some? && WellTyped(e, schema) && ExcludesNoTextLike(e, schema) && Conforms(row, schema)
    ensures Eval(engine, e, row) == Boolean(true) ==> P.Test(server, schema, Intended(e, schema).value, row) == True
    decreases e
  {
    hide P.Deterministic, Conforms, P.CompareTo, CompareValues, P.IsMember, Contains, IntendedComparison, Fits;
    if ComparesPlainColumns(e, schema) {
      IntendedMeansTheSame(engine, server, schema, e, row);
    } else if e.BinaryExpr? && e.op == And {
      TakenTestKeepsAccepted(engine, server, schema, e.left, row);
      TakenTestKeepsAccepted(engine, server, schema, e.right, row);
    } else {
      UnlikePlainTestsTextLike(e, schema);
      TextLikeTestMeans(engine, server, schema, e, row);
    }
  }

  lemma UnlikePlainTestsTextLike(e: Expr, schema: Schema)
    requires Intended(e, schema).Some? && WellTyped(e, schema) && !ComparesPlainColumns(e, schema)
    requires e.BinaryExpr? ==> e.op != And
    ensures TestsTextLike(e, schema)
    ensures ExcludesNoTextLike(e, schema) <==> !Excludes(Intended(e, schema).value)
  {
    hide TypeOf, HasColumn;
  }

  // ---- Why the gate and the restriction are there ----

  /** A server of plain text columns, whose collation orders text as given. */
  function TextServer(less: (string, string) -> bool): P.Server {
    P.Server(less, (s, t) => s == t, (c, s) => true, (c, s) => true, (c, s, t) => BytesLess(s, t), (c, s, t) => s == t,
             (op, a, b) => Unknown)
  }

  /** Text ordered backwards. */
  function ReverseServer(): P.Server {
    TextServer((s, t) => BytesLess(t, s))
  }

  lemma ReverseIsTotal()
    ensures P.Deterministic(ReverseServer()) && TotalOrder(ReverseServer().textLess)
  {
    var less := ReverseServer().textLess;
    forall a, b ensures !(less(a, b) && less(b, a)) && (less(a, b) || less(b, a) || a == b) {
      BytesLessIsTotalOrder(a, b, a);
    }
    forall a, b, c | less(a, b) && less(b, c) ensures less(a, c) {
      BytesLessIsTransitive(c, b, a);
    }
  }

  lemma {:induction false} NothingIsBelowEmpty(s: string, t: string)
    ensures s != "" ==> BytesLess("", s) && !BytesLess(s, "")
    ensures t != "" ==> BytesLess(s, s + t) && !BytesLess(s + t, s)
  {
    if s != "" && t != "" {
      assert (s + t)[1..] == s[1..] + t;
      NothingIsBelowEmpty(s[1..], t);
    } else {
      assert s == "" ==> s + t == t;
    }
  }

  /**
   The string-ordering gate is needed: against any non-empty string, every
   ordering comparison has a row the filter accepts and some total order of text rejects.
   */
  lemma PushedTextOrderingLosesRows(engine: Engine, name: string, op: Operator, kind: StringKind, s: string)
    returns (row: Row)
    requires IsOrdering(op) && s != ""
    ensures P.Deterministic(ReverseServer()) && TotalOrder(ReverseServer().textLess) && Conforms(row, [Field(name, TextColumn)])
    ensures Eval(engine, BinaryExpr(Column(name), op, Literal(StringScalar(kind, Some(s)))), row) == Boolean(true)
    ensures P.Test(ReverseServer(), [Field(name, TextColumn)],
                   Compare(name, IntendedOperator(op).value, TextConst(s)), row) == False
    ensures TranslateFilter(BinaryExpr(Column(name), op, Literal(StringScalar(kind, Some(s)))), [Field(name, TextColumn)]).None?
  {
    var text := if op.Lt? || op.LtEq? then "" else s + "a";
    row := map[name := Text(text)];
    NothingIsBelowEmpty(s, "a");
    ReverseIsTotal();
  }

  function Small(c: char): char {
    if 'A' <= c <= 'Z' then (c as int + 32) as char else c
  }

  function Capital(c: char): char {
    if 'a' <= c <= 'z' then (c as int - 32) as char else c
  }

  /** Text in small letters: the first key of a dictionary order. */
  function Folded(s: string): string {
    seq(|s|, i requires 0 <= i < |s| => Small(s[i]))
  }

  function Capitals(s: string): string {
    seq(|s|, i requires 0 <= i < |s| => Capital(s[i]))
  }

  lemma CapitalsFold(s: string)
    ensures Folded(Capitals(s) + "A") == Folded(s) + "a"
  {
    assert forall c :: Small(Capital(c)) == Small(c);
  }

  /** A dictionary order, as common collations have it: by letter regardless of case, then by case. */
  predicate DictionaryLess(s: string, t: string) {
    BytesLess(Folded(s), Folded(t)) || (Folded(s) == Folded(t) && BytesLess(t, s))
  }

  lemma DictionaryIsTotal()
    ensures TotalOrder(DictionaryLess)
  {
    forall a, b ensures !(DictionaryLess(a, b) && DictionaryLess(b, a)) && (DictionaryLess(a, b) || DictionaryLess(b, a) || a == b) {
      BytesLessIsTotalOrder(a, b, a);
      BytesLessIsTotalOrder(Folded(a), Folded(b), Folded(a));
    }
    forall a, b, c | DictionaryLess(a, b) && DictionaryLess(b, c) ensures DictionaryLess(a, c) {
      var x, y, z := Folded(a), Folded(b), Folded(c);
      if BytesLess(x, y) && BytesLess(y, z) {
        BytesLessIsTransitive(x, y, z);
      } else if x == y == z {
        BytesLessIsTransitive(c, b, a);
      }
    }
  }

  /**
   The disagreement the gate is there for, on a dictionary collation: against any
   string that starts with a small letter, `<` and `<=` accept a row PostgreSQL
   would reject.
   */
  lemma PushedDictionaryOrderingLosesRows(engine: Engine, name: string, op: Operator, kind: StringKind, s: string)
    returns (row: Row)
    requires (op == Lt || op == LtEq) && s != "" && 'a' <= s[0] <= 'z'
    ensures P.Deterministic(TextServer(DictionaryLess)) && TotalOrder(DictionaryLess) && Conforms(row, [Field(name, TextColumn)])
    ensures Eval(engine, BinaryExpr(Column(name), op, Literal(StringScalar(kind, Some(s)))), row) == Boolean(true)
    ensures P.Test(TextServer(DictionaryLess), [Field(name, TextColumn)],
                   Compare(name, IntendedOperator(op).value, TextConst(s)), row) == False
  {
    DictionaryIsTotal();
    hide TotalOrder;
    var text := Capitals(s) + "A";
    row := map[name := Text(text)];
    CapitalsFold(s);
    NothingIsBelowEmpty(Folded(s), "a");
    assert text[0] < s[0] && BytesLess(text, s);
    assert !DictionaryLess(text, s) && text != s;
  }

  /** Text without its trailing blanks. */
  function Trimmed(s: string): string {
    if s != "" && s[|s| - 1] == ' ' then Trimmed(s[..|s| - 1]) else s
  }

  function Blanks(n: nat): string {
    seq(n, i => ' ')
  }

  lemma {:induction false} BlanksAreTrimmed(s: string, n: nat)
    ensures Trimmed(s + Blanks(n)) == Trimmed(s)
  {
    if n > 0 {
      assert (s + Blanks(n))[..|s + Blanks(n)| - 1] == s + Blanks(n - 1);
      BlanksAreTrimmed(s, n - 1);
    } else {
      assert s + Blanks(0) == s;
    }
  }

  /**
   PostgreSQL's `character(n)` (its documentation, section 8.3): values are shown
   padded to `n` characters, and compared without their trailing blanks.
   */
  function CharacterServer(n: nat): P.Server {
    P.Server((s, t) => BytesLess(s, t), (s, t) => s == t, (c, s) => |s| == n, (c, s) => true,
             (c, s, t) => BytesLess(Trimmed(s), Trimmed(t)), (c, s, t) => Trimmed(s) == Trimmed(t), (op, a, b) => Unknown)
  }

  lemma CharacterServerIsSound(n: nat)
    ensures P.Deterministic(CharacterServer(n)) && P.EquatesSoundly(CharacterServer(n))
  {
  }

  /** Any text in a text-like column, the other columns NULL, is a row the server can hold if it shows the text. */
  lemma OneTextIsStored(server: P.Server, schema: Schema, name: string, v: string)
    requires UniqueNames(schema) && TypeOf(schema, name) == Some(TextLikeColumn) && server.shows(name, v)
    ensures P.Stored(server, schema, map[name := Text(v)])
  {
    var j :| 0 <= j < |schema| && schema[j] == Field(name, TextLikeColumn);
    forall i | 0 <= i < |schema| && schema[i].name == name ensures i == j {
    }
  }

  /** On every sound server, PostgreSQL takes the pushed test and agrees with the local one on every row it can hold. */
  ghost predicate FaithfulEverywhere(engine: Engine, schema: Schema, e: Expr)
    requires Intended(e, schema).Some?
  {
    forall server: P.Server, row: Row | P.Deterministic(server) && P.EquatesSoundly(server) && P.Stored(server, schema, row) ::
      && P.Judge(server, schema, Intended(e, schema).value, row).Some?
      && Eval(engine, e, row) == TriValue(P.Judge(server, schema, Intended(e, schema).value, row).value)
  }

  /**
   A pushed comparison, null test or membership has the local truth value on every
   server exactly when its column is plain: the translator looks no further than
   the column's name, and a `character(n)` column tells the two engines apart.
   */
  lemma TestIsFaithfulExactlyOnPlainColumns(engine: Engine, schema: Schema, e: Expr)
    requires UniqueNames(schema) && WellTyped(e, schema)
    requires TranslateFilter(e, schema).Some? && !(e.BinaryExpr? && e.op == And)
    ensures Intended(e, schema).Some?
    ensures FaithfulEverywhere(engine, schema, e) <==> ComparesPlainColumns(e, schema)
  {
    FragmentReads(e, schema, "");
    hide TranslateFilter, Intended;
    if ComparesPlainColumns(e, schema) {
      forall server: P.Server, row: Row | P.Deterministic(server) && P.EquatesSoundly(server) && P.Stored(server, schema, row)
        ensures !P.Refuses(server, schema, Intended(e, schema).value)
        ensures Eval(engine, e, row) == TriValue(P.Test(server, schema, Intended(e, schema).value, row))
      {
        PlainTestsAreNeverRefused(server, schema, e);
        IntendedMeansTheSame(engine, server, schema, e, row);
      }
    } else {
      UnlikePlainTestsTextLike(e, schema);
      TextLikeTestsAreUnfaithful(engine, schema, e);
    }
  }

  lemma TextLikeTestsAreUnfaithful(engine: Engine, schema: Schema, e: Expr)
    requires UniqueNames(schema) && TestsTextLike(e, schema)
    ensures !FaithfulEverywhere(engine, schema, e)
  {
    hide P.Deterministic, P.EquatesSoundly, P.Stored, P.Test, P.Refuses, Eval, Intended, TestsTextLike, UniqueNames, CharacterServer;
    TestedColumnIsTextLike(e, schema);
    var n := LengthBeyond(ItemsOf(Intended(e, schema).value));
    var row := PaddedTextDiffers(engine, schema, e, n);
    CharacterServerIsSound(n);
    assert P.Deterministic(CharacterServer(n)) && P.EquatesSoundly(CharacterServer(n)) && P.Stored(CharacterServer(n), schema, row);
  }

  lemma {:induction false} LengthBeyond(items: seq<Constant>) returns (n: nat)
    ensures forall c | c in items :: c.TextConst? ==> |c.s| < n
  {
    if items == [] {
      n := 0;
    } else {
      n := LengthBeyond(items[1..]);
      n := if items[0].TextConst? && |items[0].s| >= n then |items[0].s| + 1 else n;
    }
  }

  /** A constant shorter than the column, padded, is a text the column shows and equates with it. */
  lemma PaddedConstant(column: string, items: seq<Constant>, n: nat) returns (v: string)
    requires items != [] && forall c | c in items :: c.TextConst? && |c.s| < n
    ensures CharacterServer(n).shows(column, v) && OwnEqualToSome(CharacterServer(n), column, v, items) && !IsItem(v, items)
  {
    var c := items[0];
    assert c in items;
    v := c.s + Blanks(n - |c.s|);
    BlanksAreTrimmed(c.s, n - |c.s|);
  }

  /** On a `character(n)` column longer than the test's constants, a padded constant tells the engines apart. */
  lemma PaddedTextDiffers(engine: Engine, schema: Schema, e: Expr, n: nat) returns (row: Row)
    requires UniqueNames(schema) && TestsTextLike(e, schema)
    requires forall c | c in ItemsOf(Intended(e, schema).value) :: c.TextConst? ==> |c.s| < n
    ensures P.Stored(CharacterServer(n), schema, row)
    ensures Eval(engine, e, row) == Boolean(Excludes(Intended(e, schema).value))
    ensures P.Test(CharacterServer(n), schema, Intended(e, schema).value, row) == OfBool(!Excludes(Intended(e, schema).value))
  {
    hide Eval, P.Test, Intended, TestsTextLike;
    TestedColumnIsTextLike(e, schema);
    var p := Intended(e, schema).value;
    TextLikeTestMeans(engine, CharacterServer(n), schema, e, map[]);
    var v := PaddedConstant(p.column, ItemsOf(p), n);
    row := map[p.column := Text(v)];
    OneTextIsStored(CharacterServer(n), schema, p.column, v);
    TextLikeTestMeans(engine, CharacterServer(n), schema, e, row);
  }

  lemma TestedColumnIsTextLike(e: Expr, schema: Schema)
    requires TestsTextLike(e, schema)
    ensures Intended(e, schema).Some? && (Intended(e, schema).value.Compare? || Intended(e, schema).value.Member?)
    ensures TypeOf(schema, Intended(e, schema).value.column) == Some(TextLikeColumn)
  {
  }
}
