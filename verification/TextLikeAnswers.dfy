/** Exactly when a pushed test of a text-like column leaves the answer alone, and what that means for the types PostgreSQL has. */
module TextLikeAnswers {
  import opened Options
  import opened Values
  import opened DataFusion
  import opened PushdownText
  import opened PushdownMeaning
  import opened SqlSyntax
  import opened PostgresTable
  import opened ScanText
  import opened PushdownPlan
  import opened ExactPushdown
  import P = Postgres

  /** A text the column's type shows and finds equal to a constant, but which is no constant itself. */
  ghost predicate HasStranger(server: P.Server, column: string, items: seq<Constant>) {
    exists v :: server.shows(column, v) && OwnEqualToSome(server, column, v, items) && !IsItem(v, items)
  }

  ghost predicate ShowsSome(server: P.Server, column: string, items: seq<Constant>) {
    exists c | c in items :: c.TextConst? && server.shows(column, c.s)
  }

  /** What a caller may ask beforehand: the limit, the operator, and the equality of the column's type. */
  ghost predicate HarmlessTest(server: P.Server, p: Predicate, limit: Option<nat>)
    requires !p.Both?
  {
    || limit == Some(0)
    || !HasStranger(server, p.column, ItemsOf(p))
    || (!Excludes(p) && (limit == None || !ShowsSome(server, p.column, ItemsOf(p))))
  }

  lemma OnlyTheTestIsPushed(t: Source, e: Expr)
    requires t.filterPushdown && Intended(e, t.schema).Some?
    ensures Pushed(t, [e]) == [Intended(e, t.schema).value]
  {
    hide Intended;
    assert [e][1..] == [];
    assert IntendedAll([e][1..], t.schema) == [];
  }

  lemma ShownWhereStored(server: P.Server, schema: Schema, column: string, row: Row)
    requires P.Stored(server, schema, row) && TypeOf(schema, column) == Some(TextLikeColumn)
    ensures Get(row, column).Text? ==> server.shows(column, Get(row, column).s)
  {
    var i :| 0 <= i < |schema| && schema[i] == Field(column, TextLikeColumn);
  }

  /** What both engines make of a stored row, under the test alone. */
  lemma StoredRowMeans(engine: Engine, server: P.Server, t: Source, e: Expr, row: Row)
    requires t.filterPushdown && TestsTextLike(e, t.schema) && P.Stored(server, t.schema, row)
    ensures var p := Intended(e, t.schema).value;
      match Get(row, p.column)
      case Text(v) =>
        && server.shows(p.column, v)
        && (Accepts(engine, [e], row) <==> IsItem(v, ItemsOf(p)) != Excludes(p))
        && (Keeps(server, t.schema, Pushed(t, [e]), row) <==> OwnEqualToSome(server, p.column, v, ItemsOf(p)) != Excludes(p))
      case _ => !Accepts(engine, [e], row) && !Keeps(server, t.schema, Pushed(t, [e]), row)
  {
    hide Eval, P.Test, Intended, TestsTextLike;
    TestedColumnIsTextLike(e, t.schema);
    OnlyTheTestIsPushed(t, e);
    TextLikeTestMeans(engine, server, t.schema, e, row);
    ShownWhereStored(server, t.schema, Intended(e, t.schema).value.column, row);
    assert e in [e] && Intended(e, t.schema).value in Pushed(t, [e]);
  }

  /** A row with one shown text. */
  lemma OneTextRow(engine: Engine, server: P.Server, t: Source, e: Expr, v: string) returns (row: Row)
    requires UniqueNames(t.schema) && t.filterPushdown && TestsTextLike(e, t.schema)
    requires server.shows(Intended(e, t.schema).value.column, v)
    ensures P.Stored(server, t.schema, row)
    ensures var p := Intended(e, t.schema).value;
      && (Accepts(engine, [e], row) <==> IsItem(v, ItemsOf(p)) != Excludes(p))
      && (Keeps(server, t.schema, Pushed(t, [e]), row) <==> OwnEqualToSome(server, p.column, v, ItemsOf(p)) != Excludes(p))
  {
    hide Accepts, Keeps, Intended, TestsTextLike, P.Stored;
    TestedColumnIsTextLike(e, t.schema);
    var p := Intended(e, t.schema).value;
    row := map[p.column := Text(v)];
    OneTextIsStored(server, t.schema, p.column, v);
    StoredRowMeans(engine, server, t, e, row);
  }

  lemma ItemsAreOwnEqual(server: P.Server, column: string, items: seq<Constant>)
    requires P.EquatesSoundly(server)
    ensures forall v | IsItem(v, items) :: OwnEqualToSome(server, column, v, items)
  {
  }

  /** Some stored row is treated so by the two engines exactly if the type shows such a text. */
  lemma RowsAreTexts(engine: Engine, server: P.Server, t: Source, e: Expr)
    requires P.EquatesSoundly(server) && UniqueNames(t.schema) && t.filterPushdown && TestsTextLike(e, t.schema)
    ensures var p := Intended(e, t.schema).value;
      && (DropsAccepted(engine, server, t, [e]) <==> Excludes(p) && HasStranger(server, p.column, ItemsOf(p)))
      && (KeepsRejected(engine, server, t, [e]) <==> !Excludes(p) && HasStranger(server, p.column, ItemsOf(p)))
      && (!Excludes(p) ==> (AcceptsSome(engine, server, t, [e]) <==> ShowsSome(server, p.column, ItemsOf(p))))
  {
    hide Accepts, Keeps, Intended, TestsTextLike, P.Stored, P.EquatesSoundly, OwnEqualToSome, UniqueNames, Pushed;
    TestedColumnIsTextLike(e, t.schema);
    var p := Intended(e, t.schema).value;
    ItemsAreOwnEqual(server, p.column, ItemsOf(p));
    forall row | P.Stored(server, t.schema, row)
      ensures match Get(row, p.column)
        case Text(v) =>
          && server.shows(p.column, v)
          && (Accepts(engine, [e], row) <==> IsItem(v, ItemsOf(p)) != Excludes(p))
          && (Keeps(server, t.schema, Pushed(t, [e]), row) <==> OwnEqualToSome(server, p.column, v, ItemsOf(p)) != Excludes(p))
        case _ => !Accepts(engine, [e], row) && !Keeps(server, t.schema, Pushed(t, [e]), row)
    {
      StoredRowMeans(engine, server, t, e, row);
    }
    if HasStranger(server, p.column, ItemsOf(p)) {
      var v :| server.shows(p.column, v) && OwnEqualToSome(server, p.column, v, ItemsOf(p)) && !IsItem(v, ItemsOf(p));
      var row := OneTextRow(engine, server, t, e, v);
    }
    if ShowsSome(server, p.column, ItemsOf(p)) {
      var c :| c in ItemsOf(p) && c.TextConst? && server.shows(p.column, c.s);
      assert c == TextConst(c.s) && IsItem(c.s, ItemsOf(p));
      var row := OneTextRow(engine, server, t, e, c.s);
    }
  }

  /**
   For every server, table description, test and limit: pushing the test gives the
   local answer on every table the server can hold, exactly when the column's type
   accepts the constants, and the limit is zero, or the type finds no other text it
   shows equal to a constant, or the test is `=` or `IN` and there is no limit to
   crowd a row out, or no row to crowd out because the type shows none of the
   constants.
   */
  lemma TextLikeTestIsSafeExactlyWhenHarmless(engine: Engine, server: P.Server, t: Source, projected: seq<string>, e: Expr, limit: Option<nat>)
    requires P.EquatesSoundly(server)
    requires t.filterPushdown && UniqueNames(t.schema) && LegalSource(t) && TestsTextLike(e, t.schema)
    requires projected != [] && InSchema(projected, t.schema) && Covers(projected, [e])
    ensures var p := Intended(e, t.schema).value;
      SafeOnEveryTable(engine, server, t, projected, [e], limit) <==>
        !P.Refuses(server, t.schema, p) && HarmlessTest(server, p, limit)
  {
    hide SafeOnEveryTable, DropsAccepted, KeepsRejected, AcceptsSome, HasStranger, ShowsSome, P.EquatesSoundly, LegalSource, InSchema, Covers,
      UniqueNames, TestsTextLike, Intended, P.Refuses, Pushed;
    TestedColumnIsTextLike(e, t.schema);
    RowsAreTexts(engine, server, t, e);
    OnlyTheTestIsPushed(t, e);
    assert P.RefusesSome(server, t.schema, Pushed(t, [e])) <==> P.Refuses(server, t.schema, Intended(e, t.schema).value);
    PushdownIsSafeExactlyWhenHarmless(engine, server, t, projected, [e], limit);
  }

  /** A test is refused exactly if its column's type does not accept one of its constants. */
  lemma RefusedExactlyByAConstant(server: P.Server, schema: Schema, e: Expr)
    requires TestsTextLike(e, schema)
    ensures var p := Intended(e, schema).value;
      P.Refuses(server, schema, p) <==> exists c | c in ItemsOf(p) :: c.TextConst? && !server.accepts(p.column, c.s)
  {
    var p := Intended(e, schema).value;
    if p.Compare? {
      assert p.constant in ItemsOf(p);
    }
  }

  // ---- The types PostgreSQL has ----

  /**
   Where the type accepts what it shows and distinct shown texts are distinct
   values, as for uuid and `character(n)`: a test whose constants are written as
   the type shows them is safe under every limit.
   */
  lemma ConstantsAsShownAreSafe(engine: Engine, server: P.Server, t: Source, projected: seq<string>, e: Expr, limit: Option<nat>)
    requires P.EquatesSoundly(server)
    requires t.filterPushdown && UniqueNames(t.schema) && LegalSource(t) && TestsTextLike(e, t.schema)
    requires projected != [] && InSchema(projected, t.schema) && Covers(projected, [e])
    requires var p := Intended(e, t.schema).value;
      && (forall x | server.shows(p.column, x) :: server.accepts(p.column, x))
      && (forall x, y | server.shows(p.column, x) && server.shows(p.column, y) && server.ownEqual(p.column, x, y) :: x == y)
      && (forall c | c in ItemsOf(p) :: c.TextConst? ==> server.shows(p.column, c.s))
    ensures SafeOnEveryTable(engine, server, t, projected, [e], limit)
  {
    hide SafeOnEveryTable, P.EquatesSoundly, LegalSource, InSchema, Covers, UniqueNames, Intended, TestsTextLike, P.Refuses;
    TestedColumnIsTextLike(e, t.schema);
    RefusedExactlyByAConstant(server, t.schema, e);
    TextLikeTestIsSafeExactlyWhenHarmless(engine, server, t, projected, e, limit);
    var p := Intended(e, t.schema).value;
    forall v | server.shows(p.column, v) && OwnEqualToSome(server, p.column, v, ItemsOf(p)) ensures IsItem(v, ItemsOf(p)) {
      var c :| c in ItemsOf(p) && c.TextConst? && server.ownEqual(p.column, v, c.s);
      assert c == TextConst(v);
    }
  }

  /** On a `character(n)` column longer than its constants, a pushed `<>` or `NOT IN` loses rows under every limit but zero. */
  lemma CharacterColumnLosesExcludedRows(engine: Engine, t: Source, projected: seq<string>, e: Expr, limit: Option<nat>, n: nat)
    requires t.filterPushdown && UniqueNames(t.schema) && LegalSource(t) && TestsTextLike(e, t.schema)
    requires projected != [] && InSchema(projected, t.schema) && Covers(projected, [e])
    requires Excludes(Intended(e, t.schema).value) && limit != Some(0)
    requires forall c | c in ItemsOf(Intended(e, t.schema).value) :: c.TextConst? ==> |c.s| < n
    ensures !P.Refuses(CharacterServer(n), t.schema, Intended(e, t.schema).value)
    ensures !SafeOnEveryTable(engine, CharacterServer(n), t, projected, [e], limit)
  {
    hide SafeOnEveryTable, P.Deterministic, P.EquatesSoundly, Eval, P.Test, Intended, TestsTextLike, P.Refuses;
    TestedColumnIsTextLike(e, t.schema);
    CharacterServerIsSound(n);
    RefusedExactlyByAConstant(CharacterServer(n), t.schema, e);
    TextLikeTestIsSafeExactlyWhenHarmless(engine, CharacterServer(n), t, projected, e, limit);
    var p := Intended(e, t.schema).value;
    TextLikeTestMeans(engine, CharacterServer(n), t.schema, e, map[]);
    var v := PaddedConstant(p.column, ItemsOf(p), n);
  }

  /** A part of jsonb's equality: the numbers `1` and `1.0` are equal and both shown as written. */
  function JsonbServer(): P.Server {
    P.Server((s, t) => BytesLess(s, t), (s, t) => s == t, (c, s) => true, (c, s) => true,
             (c, s, t) => BytesLess(s, t), (c, s, t) => (if s == "1.0" then "1" else s) == (if t == "1.0" then "1" else t),
             (op, a, b) => Unknown)
  }

  /** On a jsonb column a pushed `= '1'` is taken and loses rows under every positive limit. */
  lemma JsonbColumnLosesRowsUnderALimit(engine: Engine, t: Source, projected: seq<string>, name: string, kind: StringKind, n: nat)
    requires t.filterPushdown && UniqueNames(t.schema) && LegalSource(t) && TypeOf(t.schema, name) == Some(TextLikeColumn)
    requires projected != [] && InSchema(projected, t.schema) && name in projected && n > 0
    ensures P.Deterministic(JsonbServer()) && P.EquatesSoundly(JsonbServer())
    ensures !P.Refuses(JsonbServer(), t.schema, Compare(name, Equal, TextConst("1")))
    ensures !SafeOnEveryTable(engine, JsonbServer(), t, projected,
                              [BinaryExpr(Column(name), Eq, Literal(StringScalar(kind, Some("1"))))], Some(n))
  {
    hide SafeOnEveryTable, UniqueNames, LegalSource, InSchema, P.EquatesSoundly, P.Deterministic, HarmlessTest, TestsTextLike;
    JsonbServerIsSound();
    var e := BinaryExpr(Column(name), Eq, Literal(StringScalar(kind, Some("1"))));
    OneIsATest(t.schema, name, kind);
    JsonbHasAStranger(name, n);
    assert ColumnsOf(e) == {name};
    TextLikeTestIsSafeExactlyWhenHarmless(engine, JsonbServer(), t, projected, e, Some(n));
  }

  lemma JsonbServerIsSound()
    ensures P.Deterministic(JsonbServer()) && P.EquatesSoundly(JsonbServer())
  {
  }

  lemma OneIsATest(schema: Schema, name: string, kind: StringKind)
    requires TypeOf(schema, name) == Some(TextLikeColumn)
    ensures var e := BinaryExpr(Column(name), Eq, Literal(StringScalar(kind, Some("1"))));
      TestsTextLike(e, schema) && Intended(e, schema) == Some(Compare(name, Equal, TextConst("1")))
  {
    hide TypeOf, HasColumn;
  }

  lemma JsonbHasAStranger(name: string, n: nat)
    requires n > 0
    ensures !HarmlessTest(JsonbServer(), Compare(name, Equal, TextConst("1")), Some(n))
  {
    var p := Compare(name, Equal, TextConst("1"));
    assert TextConst("1") in ItemsOf(p);
    assert OwnEqualToSome(JsonbServer(), name, "1.0", ItemsOf(p)) && !IsItem("1.0", ItemsOf(p));
    assert JsonbServer().shows(name, "1.0");
  }

  /** json has no equality: PostgreSQL shows every text of such a column and compares it with none. */
  function JsonServer(): P.Server {
    P.Server((s, t) => BytesLess(s, t), (s, t) => s == t, (c, s) => true, (c, s) => false,
             (c, s, t) => BytesLess(s, t), (c, s, t) => s == t, (op, a, b) => Unknown)
  }

  /** On a json column every pushed test is refused: the query fails, and would not without pushdown. */
  lemma JsonColumnRefusesEveryTest(engine: Engine, db: P.Database, t: Source, projected: seq<string>, e: Expr, limit: Option<nat>)
    requires t.filterPushdown && Hosts(db, t) && LegalSource(t) && TestsTextLike(e, t.schema)
    requires projected != [] && InSchema(projected, t.schema) && Covers(projected, [e])
    ensures P.Answers(JsonServer(), db, ScanSql(t, projected, [e], limit)) == None
    ensures AnswerIsLocal(engine, JsonServer(), db, t.(filterPushdown := false), projected, [e], limit, [e], limit)
  {
    hide AnswerIsLocal, P.Answers, Intended, P.Refuses, TestsTextLike, LegalSource, InSchema, Covers;
    TestedColumnIsTextLike(e, t.schema);
    RefusedExactlyByAConstant(JsonServer(), t.schema, e);
    TextLikeTestMeans(engine, JsonServer(), t.schema, e, map[]);
    OnlyTheTestIsPushed(t, e);
    var p := Intended(e, t.schema).value;
    assert ItemsOf(p)[0] in ItemsOf(p) && p in Pushed(t, [e]);
    RefusedPushdownLosesTheAnswer(engine, JsonServer(), db, t, projected, [e], limit);
  }

  // ---- uuid (PostgreSQL documentation, section 8.12) ----

  predicate IsHex(c: char) {
    '0' <= c <= '9' || 'a' <= c <= 'f' || 'A' <= c <= 'F'
  }

  /** `groups` groups of four hexadecimal digits, a hyphen allowed between two: the digits in lower case. */
  function HexGroups(s: string, groups: nat): Option<string> {
    if groups == 0 then (if s == "" then Some("") else None)
    else if |s| < 4 || exists i | 0 <= i < 4 :: !IsHex(s[i]) then None
    else
      var rest := s[4..];
      var digits :- HexGroups(if groups > 1 && rest != "" && rest[0] == '-' then rest[1..] else rest, groups - 1);
      Some(Folded(s[..4]) + digits)
  }

  /** The 32 digits of a text that is a uuid; braces around it are allowed. */
  function UuidDigits(s: string): Option<string> {
    if |s| >= 2 && s[0] == '{' && s[|s| - 1] == '}' then HexGroups(s[1..|s| - 1], 8) else HexGroups(s, 8)
  }

  /** How a uuid is shown. */
  function UuidText(d: string): string
    requires |d| == 32
  {
    d[..8] + "-" + d[8..12] + "-" + d[12..16] + "-" + d[16..20] + "-" + d[20..]
  }

  predicate IsUuidText(s: string) {
    UuidDigits(s).Some? && |UuidDigits(s).value| == 32 && s == UuidText(UuidDigits(s).value)
  }

  function UuidServer(): P.Server {
    P.Server((s, t) => BytesLess(s, t), (s, t) => s == t, (c, s) => IsUuidText(s), (c, s) => UuidDigits(s).Some?,
             (c, s, t) => BytesLess(s, t), (c, s, t) => UuidDigits(s) == UuidDigits(t), (op, a, b) => Unknown)
  }

  lemma UuidServerIsSound()
    ensures P.Deterministic(UuidServer()) && P.EquatesSoundly(UuidServer())
  {
    hide UuidDigits;
  }

  /** On a uuid column a constant that is no uuid is refused: the query fails, and would not without pushdown. */
  lemma UuidColumnRefusesOtherText(engine: Engine, db: P.Database, t: Source, projected: seq<string>, e: Expr, limit: Option<nat>)
    requires t.filterPushdown && Hosts(db, t) && LegalSource(t) && TestsTextLike(e, t.schema)
    requires projected != [] && InSchema(projected, t.schema) && Covers(projected, [e])
    requires exists c | c in ItemsOf(Intended(e, t.schema).value) :: c.TextConst? && UuidDigits(c.s).None?
    ensures P.Answers(UuidServer(), db, ScanSql(t, projected, [e], limit)) == None
    ensures AnswerIsLocal(engine, UuidServer(), db, t.(filterPushdown := false), projected, [e], limit, [e], limit)
  {
    hide AnswerIsLocal, P.Answers, Intended, P.Refuses, TestsTextLike, LegalSource, InSchema, Covers, UuidDigits, IsUuidText;
    TestedColumnIsTextLike(e, t.schema);
    RefusedExactlyByAConstant(UuidServer(), t.schema, e);
    OnlyTheTestIsPushed(t, e);
    assert Intended(e, t.schema).value in Pushed(t, [e]);
    RefusedPushdownLosesTheAnswer(engine, UuidServer(), db, t, projected, [e], limit);
  }

  /** And constants written as uuids are shown are safe under every limit. */
  lemma UuidColumnIsSafeForShownText(engine: Engine, t: Source, projected: seq<string>, e: Expr, limit: Option<nat>)
    requires t.filterPushdown && UniqueNames(t.schema) && LegalSource(t) && TestsTextLike(e, t.schema)
    requires projected != [] && InSchema(projected, t.schema) && Covers(projected, [e])
    requires forall c | c in ItemsOf(Intended(e, t.schema).value) :: c.TextConst? ==> IsUuidText(c.s)
    ensures SafeOnEveryTable(engine, UuidServer(), t, projected, [e], limit)
  {
    hide SafeOnEveryTable, UuidDigits, UuidText, P.EquatesSoundly, Intended, TestsTextLike, LegalSource, InSchema, Covers, UniqueNames;
    UuidServerIsSound();
    TestedColumnIsTextLike(e, t.schema);
    ConstantsAsShownAreSafe(engine, UuidServer(), t, projected, e, limit);
  }

  /** `abc` is none. */
  lemma AbcIsNoUuid()
    ensures UuidDigits("abc").None?
  {
  }
}
