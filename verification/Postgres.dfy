/** What PostgreSQL computes for a statement it has read. */
module Postgres {
  import opened Options
  import opened Values
  import opened SqlSyntax

  /**
   What the model leaves open about a server: how its collation orders and equates
   text; for each text-like column, which texts its values are shown as, which
   texts its type accepts as constants to compare with, and how the type orders
   and equates them; and comparisons across types.
   */
  datatype Server = Server(
    textLess: (string, string) -> bool,
    textEqual: (string, string) -> bool,
    shows: (string, string) -> bool,
    accepts: (string, string) -> bool,
    ownLess: (string, string, string) -> bool,
    ownEqual: (string, string, string) -> bool,
    mixed: (Comparison, Value, Value) -> Tri)

  /** Text equality is equality of bytes, as under PostgreSQL's default collations; the order is any. */
  ghost predicate Deterministic(server: Server) {
    forall s, t :: server.textEqual(s, t) <==> s == t
  }

  /** On every text-like column the server's equality is an equivalence relation. */
  ghost predicate EquatesSoundly(server: Server) {
    && (forall c, s :: server.ownEqual(c, s, s))
    && (forall c, s, t | server.ownEqual(c, s, t) :: server.ownEqual(c, t, s))
    && (forall c, s, t, u | server.ownEqual(c, s, t) && server.ownEqual(c, t, u) :: server.ownEqual(c, s, u))
  }

  /** A row the server can hold: text-like columns only have texts their type shows. */
  ghost predicate Stored(server: Server, schema: Schema, row: Row) {
    && Conforms(row, schema)
    && forall i | 0 <= i < |schema| && schema[i].ty == TextLikeColumn && Get(row, schema[i].name).Text? ::
         server.shows(schema[i].name, Get(row, schema[i].name).s)
  }

  datatype Table = Table(schema: Schema, rows: seq<Row>)

  type Database = map<(string, string), Table>

  function ConstantValue(c: Constant): Value {
    match c
    case BoolConst(b) => Boolean(b)
    case IntConst(i) => Integer(i)
    case TextConst(s) => Text(s)
  }

  function Holds(op: Comparison, less: bool, equal: bool, greater: bool): bool {
    match op
    case Equal => equal
    case NotEqual => !equal
    case Less => less
    case LessOrEqual => less || equal
    case Greater => greater
    case GreaterOrEqual => greater || equal
  }

  /** Comparison predicate (ISO/IEC 9075-2, section 8.2). */
  function CompareTo(server: Server, schema: Schema, column: string, op: Comparison, v: Value, c: Constant): Tri {
    match (v, c)
    case (Null, _) => Unknown
    case (Boolean(x), BoolConst(y)) => OfBool(Holds(op, !x && y, x == y, x && !y))
    case (Integer(x), IntConst(y)) => OfBool(Holds(op, x < y, x == y, x > y))
    case (Text(x), TextConst(y)) =>
      if TypeOf(schema, column) == Some(TextLikeColumn) then
        OfBool(Holds(op, server.ownLess(column, x, y), server.ownEqual(column, x, y), server.ownLess(column, y, x)))
      else
        OfBool(Holds(op, server.textLess(x, y), server.textEqual(x, y), server.textLess(y, x)))
    case _ => server.mixed(op, v, ConstantValue(c))
  }

  /** `IN` is equality to some item (ISO/IEC 9075-2, section 8.4). */
  function IsMember(server: Server, schema: Schema, column: string, v: Value, items: seq<Constant>): Tri {
    if items == [] then False
    else Or3(CompareTo(server, schema, column, Equal, v, items[0]), IsMember(server, schema, column, v, items[1..]))
  }

  function Test(server: Server, schema: Schema, p: Predicate, row: Row): Tri {
    match p
    case Compare(col, op, c) => CompareTo(server, schema, col, op, Get(row, col), c)
    case Null(col) => OfBool(Get(row, col).Null?)
    case NotNull(col) => OfBool(!Get(row, col).Null?)
    case Member(col, negated, items) =>
      var t := IsMember(server, schema, col, Get(row, col), items);
      if negated then Not3(t) else t
    case Both(l, r) => And3(Test(server, schema, l, row), Test(server, schema, r, row))
  }

  /** A text is no constant of a type that does not accept it. */
  predicate RefusesConstant(server: Server, schema: Schema, column: string, c: Constant) {
    TypeOf(schema, column) == Some(TextLikeColumn) && c.TextConst? && !server.accepts(column, c.s)
  }

  /**
   PostgreSQL refuses a predicate while it reads it, whatever the rows, if it
   compares a column with a text that is no constant of the column's type, or with
   any text if the type has no equality, as json.
   */
  predicate Refuses(server: Server, schema: Schema, p: Predicate) {
    match p
    case Compare(col, _, c) => RefusesConstant(server, schema, col, c)
    case Member(col, _, items) => exists c | c in items :: RefusesConstant(server, schema, col, c)
    case Both(l, r) => Refuses(server, schema, l) || Refuses(server, schema, r)
    case _ => false
  }

  predicate RefusesSome(server: Server, schema: Schema, ps: seq<Predicate>) {
    exists p | p in ps :: Refuses(server, schema, p)
  }

  /** The truth value of a predicate on a row, if PostgreSQL takes the predicate at all. */
  function Judge(server: Server, schema: Schema, p: Predicate, row: Row): Option<Tri> {
    if Refuses(server, schema, p) then None else Some(Test(server, schema, p, row))
  }

  function ColumnsNamed(p: Predicate): set<string> {
    match p
    case Both(l, r) => ColumnsNamed(l) + ColumnsNamed(r)
    case _ => {p.column}
  }

  lemma {:induction false} MembershipDependsOnTypes(server: Server, stored: Schema, visible: Schema, column: string, v: Value, items: seq<Constant>)
    requires TypeOf(stored, column) == TypeOf(visible, column)
    ensures IsMember(server, stored, column, v, items) == IsMember(server, visible, column, v, items)
  {
    if items != [] {
      MembershipDependsOnTypes(server, stored, visible, column, v, items[1..]);
    }
  }

  /** A predicate depends on a schema only through the types of the columns it names. */
  lemma {:induction false} TestDependsOnTypes(server: Server, stored: Schema, visible: Schema, p: Predicate, row: Row)
    requires forall c | c in ColumnsNamed(p) :: TypeOf(stored, c) == TypeOf(visible, c)
    ensures Test(server, stored, p, row) == Test(server, visible, p, row)
  {
    hide TypeOf;
    match p
    case Both(l, r) =>
      TestDependsOnTypes(server, stored, visible, l, row);
      TestDependsOnTypes(server, stored, visible, r, row);
    case Member(col, negated, items) =>
      assert col in ColumnsNamed(p);
      MembershipDependsOnTypes(server, stored, visible, col, Get(row, col), items);
    case _ =>
      assert p.column in ColumnsNamed(p);
  }

  lemma {:induction false} RefusalDependsOnTypes(server: Server, stored: Schema, visible: Schema, p: Predicate)
    requires forall c | c in ColumnsNamed(p) :: TypeOf(stored, c) == TypeOf(visible, c)
    ensures Refuses(server, stored, p) == Refuses(server, visible, p)
  {
    hide TypeOf;
    if p.Both? {
      RefusalDependsOnTypes(server, stored, visible, p.left);
      RefusalDependsOnTypes(server, stored, visible, p.right);
    } else {
      assert p.column in ColumnsNamed(p);
    }
  }

  lemma {:induction false} ConjunctionDependsOnTypes(server: Server, stored: Schema, visible: Schema, ps: seq<Predicate>, row: Row)
    requires ps != [] && forall p, c | p in ps && c in ColumnsNamed(p) :: TypeOf(stored, c) == TypeOf(visible, c)
    ensures Test(server, stored, Conjunction(ps), row) == Test(server, visible, Conjunction(ps), row)
  {
    TestDependsOnTypes(server, stored, visible, ps[|ps| - 1], row);
    if |ps| > 1 {
      ConjunctionDependsOnTypes(server, stored, visible, ps[..|ps| - 1], row);
    }
  }

  /** `WHERE` keeps the rows on which the conjunction is true. */
  function Where(server: Server, schema: Schema, conjuncts: seq<Predicate>, rows: seq<Row>): seq<Row> {
    if rows == [] then []
    else
      (if conjuncts == [] || Test(server, schema, Conjunction(conjuncts), rows[0]) == True then [rows[0]] else [])
      + Where(server, schema, conjuncts, rows[1..])
  }

  /** Columns the predicates do not name change nothing. */
  lemma {:induction false} WhereDependsOnTypes(server: Server, stored: Schema, visible: Schema, ps: seq<Predicate>, rows: seq<Row>)
    requires forall p, c | p in ps && c in ColumnsNamed(p) :: TypeOf(stored, c) == TypeOf(visible, c)
    ensures Where(server, stored, ps, rows) == Where(server, visible, ps, rows)
  {
    hide Test;
    if rows != [] {
      WhereDependsOnTypes(server, stored, visible, ps, rows[1..]);
      if ps != [] {
        ConjunctionDependsOnTypes(server, stored, visible, ps, rows[0]);
      }
    }
  }

  lemma RefusesSomeDependsOnTypes(server: Server, stored: Schema, visible: Schema, ps: seq<Predicate>)
    requires forall p, c | p in ps && c in ColumnsNamed(p) :: TypeOf(stored, c) == TypeOf(visible, c)
    ensures RefusesSome(server, stored, ps) == RefusesSome(server, visible, ps)
  {
    hide Refuses, TypeOf;
    forall p | p in ps ensures Refuses(server, stored, p) == Refuses(server, visible, p) {
      RefusalDependsOnTypes(server, stored, visible, p);
    }
  }

  /** `LIMIT` keeps at most that many rows (PostgreSQL documentation, section 7.6). */
  function Take<T>(limit: Option<nat>, rows: seq<T>): seq<T> {
    match limit
    case None => rows
    case Some(n) => if n < |rows| then rows[..n] else rows
  }

  function Project(columns: seq<string>, row: Row): Row {
    map c | c in columns && c in row :: row[c]
  }

  function ProjectAll(columns: seq<string>, rows: seq<Row>): seq<Row> {
    seq(|rows|, i requires 0 <= i < |rows| => Project(columns, rows[i]))
  }

  datatype Answer = Rows(rows: seq<Row>) | Count(n: nat)

  /** The answer to a statement, or nothing if its relation does not exist or a conjunct is refused. */
  function Execute(server: Server, db: Database, s: Statement): Option<Answer> {
    if (s.schemaName, s.tableName) !in db then None
    else
      var t := db[(s.schemaName, s.tableName)];
      if RefusesSome(server, t.schema, s.conjuncts) then None else
      var rows := Take(s.limit, Where(server, t.schema, s.conjuncts, t.rows));
      match s.projection
      case CountRows => Some(Count(|rows|))
      case Columns(names) => Some(Rows(ProjectAll(names, rows)))
  }

  /** The answer to a text: read it, then execute what was read. */
  function Answers(server: Server, db: Database, text: string): Option<Answer> {
    var s :- ReadStatement(text);
    Execute(server, db, s)
  }
}
