/** DataFusion's filter expressions and their local, row-at-a-time meaning. */
module DataFusion {
  import opened Options
  import opened Values

  datatype Operator = Eq | NotEq | Lt | LtEq | Gt | GtEq | And | Or | OtherOperator(id: nat)

  datatype IntWidth = Int8 | Int16 | Int32 | Int64 | UInt8 | UInt16 | UInt32 | UInt64

  datatype StringKind = Utf8 | LargeUtf8 | Utf8View

  /** Typed literals; `OtherScalar` is a date, timestamp, decimal, ... */
  datatype ScalarValue =
    | BooleanScalar(b: Option<bool>)
    | IntegerScalar(width: IntWidth, i: Option<int>)
    | StringScalar(kind: StringKind, s: Option<string>)
    | OtherScalar(tag: nat)

  /** `OtherExpr` is any expression form the translator does not know, over the columns it names. */
  datatype Expr =
    | Column(name: string)
    | Literal(value: ScalarValue)
    | BinaryExpr(left: Expr, op: Operator, right: Expr)
    | IsNull(arg: Expr)
    | IsNotNull(arg: Expr)
    | InList(expr: Expr, list: seq<Expr>, negated: bool)
    | OtherExpr(id: nat, columns: seq<string>)

  /** What the model leaves open about the engine: unknown forms, and comparisons across types. */
  datatype Engine = Engine(
    other: (nat, seq<Value>) -> Value,
    otherBinary: (nat, Value, Value) -> Value,
    mixed: (Operator, Value, Value) -> Value)

  function ScalarToValue(v: ScalarValue): Value {
    match v
    case BooleanScalar(Some(b)) => Boolean(b)
    case IntegerScalar(_, Some(i)) => Integer(i)
    case StringScalar(_, Some(s)) => Text(s)
    case OtherScalar(tag) => Other(tag)
    case _ => Null
  }

  /** The six comparisons, given how the operands are ordered. */
  function Holds(op: Operator, less: bool, equal: bool, greater: bool): bool {
    match op
    case Eq => equal
    case NotEq => !equal
    case Lt => less
    case LtEq => less || equal
    case Gt => greater
    case GtEq => greater || equal
    case _ => false
  }

  /** Arrow's comparison: NULL if either side is NULL, false before true, text by bytes. */
  function CompareValues(engine: Engine, op: Operator, a: Value, b: Value): Value {
    match (a, b)
    case (Null, _) => Null
    case (_, Null) => Null
    case (Boolean(x), Boolean(y)) => Boolean(Holds(op, !x && y, x == y, x && !y))
    case (Integer(x), Integer(y)) => Boolean(Holds(op, x < y, x == y, x > y))
    case (Text(x), Text(y)) => Boolean(Holds(op, BytesLess(x, y), x == y, BytesLess(y, x)))
    case _ => engine.mixed(op, a, b)
  }

  /** `IN` over evaluated items: a match decides, else a NULL anywhere makes it NULL. */
  function Contains(engine: Engine, v: Value, items: seq<Value>, negated: bool): Value {
    if v.Null? then Null
    else if exists k | 0 <= k < |items| :: CompareValues(engine, Eq, v, items[k]) == Boolean(true) then Boolean(!negated)
    else if exists k | 0 <= k < |items| :: CompareValues(engine, Eq, v, items[k]) == Null then Null
    else Boolean(negated)
  }

  function Eval(engine: Engine, e: Expr, row: Row): Value {
    match e
    case Column(name) => Get(row, name)
    case Literal(v) => ScalarToValue(v)
    case BinaryExpr(l, op, r) =>
      var a, b := Eval(engine, l, row), Eval(engine, r, row);
      (match op
       case And => TriValue(And3(ValueTri(a), ValueTri(b)))
       case Or => TriValue(Or3(ValueTri(a), ValueTri(b)))
       case OtherOperator(id) => engine.otherBinary(id, a, b)
       case _ => CompareValues(engine, op, a, b))
    case IsNull(arg) => Boolean(Eval(engine, arg, row).Null?)
    case IsNotNull(arg) => Boolean(!Eval(engine, arg, row).Null?)
    case InList(expr, list, negated) =>
      Contains(engine, Eval(engine, expr, row),
               seq(|list|, i requires 0 <= i < |list| => Eval(engine, list[i], row)), negated)
    case OtherExpr(id, columns) =>
      engine.other(id, seq(|columns|, i requires 0 <= i < |columns| => Get(row, columns[i])))
  }

  /** The columns an expression reads. */
  function ColumnsOf(e: Expr): set<string> {
    match e
    case Column(name) => {name}
    case Literal(_) => {}
    case BinaryExpr(l, _, r) => ColumnsOf(l) + ColumnsOf(r)
    case IsNull(arg) => ColumnsOf(arg)
    case IsNotNull(arg) => ColumnsOf(arg)
    case InList(expr, list, _) => ColumnsOf(expr) + (set i, c | 0 <= i < |list| && c in ColumnsOf(list[i]) :: c)
    case OtherExpr(_, columns) => set c | c in columns
  }

  /** An expression depends on nothing but the columns it reads. */
  lemma {:induction false} EvalReadsOnlyItsColumns(engine: Engine, e: Expr, row: Row, row': Row)
    requires forall c | c in ColumnsOf(e) :: Get(row, c) == Get(row', c)
    ensures Eval(engine, e, row) == Eval(engine, e, row')
    decreases e
  {
    match e
    case BinaryExpr(l, _, r) =>
      EvalReadsOnlyItsColumns(engine, l, row, row');
      EvalReadsOnlyItsColumns(engine, r, row, row');
    case IsNull(arg) => EvalReadsOnlyItsColumns(engine, arg, row, row');
    case IsNotNull(arg) => EvalReadsOnlyItsColumns(engine, arg, row, row');
    case InList(expr, list, _) =>
      EvalReadsOnlyItsColumns(engine, expr, row, row');
      forall i | 0 <= i < |list| ensures Eval(engine, list[i], row) == Eval(engine, list[i], row') {
        forall c | c in ColumnsOf(list[i]) ensures Get(row, c) == Get(row', c) {
          assert c in ColumnsOf(e);
        }
        EvalReadsOnlyItsColumns(engine, list[i], row, row');
      }
      assert seq(|list|, i requires 0 <= i < |list| => Eval(engine, list[i], row))
          == seq(|list|, i requires 0 <= i < |list| => Eval(engine, list[i], row'));
    case OtherExpr(_, columns) =>
      assert seq(|columns|, i requires 0 <= i < |columns| => Get(row, columns[i]))
          == seq(|columns|, i requires 0 <= i < |columns| => Get(row', columns[i]));
    case _ =>
  }

  /** The rows all of `filters` accept: what a local Filter node lets through. */
  predicate Accepts(engine: Engine, filters: seq<Expr>, row: Row) {
    forall f | f in filters :: Eval(engine, f, row) == Boolean(true)
  }

  function Filter(engine: Engine, filters: seq<Expr>, rows: seq<Row>): seq<Row> {
    if rows == [] then []
    else (if Accepts(engine, filters, rows[0]) then [rows[0]] else []) + Filter(engine, filters, rows[1..])
  }

  function Limit<T>(limit: Option<nat>, rows: seq<T>): seq<T> {
    if limit.Some? && limit.value < |rows| then rows[..limit.value] else rows
  }
}
