/** The statements a scan may send to PostgreSQL, as syntax trees, and the reader that recovers them from tokens. */
module SqlSyntax {
  import opened Options
  import opened SqlLexer

  datatype Constant = BoolConst(b: bool) | IntConst(i: int) | TextConst(s: string)

  datatype Comparison = Equal | NotEqual | Less | LessOrEqual | Greater | GreaterOrEqual

  datatype Predicate =
    | Compare(column: string, op: Comparison, constant: Constant)
    | Null(column: string)
    | NotNull(column: string)
    | Member(column: string, negated: bool, items: seq<Constant>)
    | Both(left: Predicate, right: Predicate)

  datatype Projection = Columns(names: seq<string>) | CountRows

  datatype Statement = Statement(
    projection: Projection,
    schemaName: string,
    tableName: string,
    conjuncts: seq<Predicate>,
    limit: Option<nat>)

  // ---- The reader: recursive descent over tokens, every function returning what it did not consume ----

  type Tokens = seq<Token>

  function ReadConstant(ts: Tokens): (r: Option<(Constant, Tokens)>)
    ensures r.Some? ==> |r.value.1| < |ts|
  {
    if ts == [] then None
    else match ts[0]
      case Key(TRUE) => Some((BoolConst(true), ts[1..]))
      case Key(FALSE) => Some((BoolConst(false), ts[1..]))
      case Num(n) => Some((IntConst(n), ts[1..]))
      case Str(s) => Some((TextConst(s), ts[1..]))
      case Op(Minus) =>
        if |ts| > 1 && ts[1].Num? then Some((IntConst(-(ts[1].value as int)), ts[2..])) else None
      case _ => None
  }

  /** One or more constants separated by commas, up to and including the closing parenthesis. */
  function ReadItems(ts: Tokens): (r: Option<(seq<Constant>, Tokens)>)
    ensures r.Some? ==> |r.value.1| < |ts|
    decreases |ts|
  {
    var (c, rest) :- ReadConstant(ts);
    if rest == [] then None
    else if rest[0] == Punct(')') then Some(([c], rest[1..]))
    else if rest[0] == Punct(',') then
      var (cs, rest') :- ReadItems(rest[1..]);
      Some(([c] + cs, rest'))
    else None
  }

  function ReadComparison(symbol: Symbol): Option<Comparison> {
    match symbol
    case Equals => Some(Equal)
    case Differs => Some(NotEqual)
    case Below => Some(Less)
    case AtMost => Some(LessOrEqual)
    case Above => Some(Greater)
    case AtLeast => Some(GreaterOrEqual)
    case _ => None
  }

  predicate At(ts: Tokens, i: nat, t: Token) {
    i < |ts| && ts[i] == t
  }

  /** What may follow a column name in a predicate. */
  function ReadColumnTest(column: string, ts: Tokens): (r: Option<(Predicate, Tokens)>)
    ensures r.Some? ==> |r.value.1| < |ts|
  {
    if ts == [] then None
    else match ts[0]
      case Key(IS) =>
        if At(ts, 1, Key(NULL)) then Some((Null(column), ts[2..]))
        else if At(ts, 1, Key(NOT)) && At(ts, 2, Key(NULL)) then Some((NotNull(column), ts[3..]))
        else None
      case Key(IN) =>
        if !At(ts, 1, Punct('(')) then None else
        var (items, rest) :- ReadItems(ts[2..]);
        Some((Member(column, false, items), rest))
      case Key(NOT) =>
        if !At(ts, 1, Key(IN)) || !At(ts, 2, Punct('(')) then None else
        var (items, rest) :- ReadItems(ts[3..]);
        Some((Member(column, true, items), rest))
      case Op(symbol) =>
        var op :- ReadComparison(symbol);
        var (c, rest) :- ReadConstant(ts[1..]);
        Some((Compare(column, op, c), rest))
      case _ => None
  }

  /** `AND` associates to the left. */
  function Conjunction(ps: seq<Predicate>): Predicate
    requires ps != []
  {
    if |ps| == 1 then ps[0] else Both(Conjunction(ps[..|ps| - 1]), ps[|ps| - 1])
  }

  function ReadPrimary(ts: Tokens): (r: Option<(Predicate, Tokens)>)
    ensures r.Some? ==> |r.value.1| < |ts|
    decreases |ts|, 0
  {
    if ts == [] then None
    else if ts[0] == Punct('(') then
      var (ps, rest) :- ReadConjuncts(ts[1..]);
      if rest != [] && rest[0] == Punct(')') then Some((Conjunction(ps), rest[1..])) else None
    else if ts[0].Ident? then ReadColumnTest(ts[0].name, ts[1..])
    else None
  }

  /** Predicates joined by `AND`. */
  function ReadConjuncts(ts: Tokens): (r: Option<(seq<Predicate>, Tokens)>)
    ensures r.Some? ==> |r.value.1| < |ts| && r.value.0 != []
    decreases |ts|, 1
  {
    var (p, rest) :- ReadPrimary(ts);
    if rest != [] && rest[0] == Key(AND) then
      var (ps, rest') :- ReadConjuncts(rest[1..]);
      Some(([p] + ps, rest'))
    else Some(([p], rest))
  }

  /** A boolean expression standing alone. */
  function ReadPredicate(text: string): Option<Predicate> {
    var ts :- Lex(text);
    var (ps, rest) :- ReadConjuncts(ts);
    if rest == [] then Some(Conjunction(ps)) else None
  }

  function ReadColumns(ts: Tokens): (r: Option<(seq<string>, Tokens)>)
    ensures r.Some? ==> |r.value.1| < |ts|
    decreases |ts|
  {
    if ts == [] || !ts[0].Ident? then None
    else if |ts| > 1 && ts[1] == Punct(',') then
      var (names, rest) :- ReadColumns(ts[2..]);
      Some(([ts[0].name] + names, rest))
    else Some(([ts[0].name], ts[1..]))
  }

  /** Everything after `FROM`: relation, optional `WHERE`, optional `LIMIT`. */
  function ReadSource(projection: Projection, ts: Tokens): Option<(Statement, Tokens)> {
    if |ts| >= 3 && ts[0].Ident? && ts[1] == Punct('.') && ts[2].Ident? then
      var (conjuncts, rest) :- ReadWhere(ts[3..]);
      var (limit, rest') :- ReadLimit(rest);
      Some((Statement(projection, ts[0].name, ts[2].name, conjuncts, limit), rest'))
    else None
  }

  function ReadWhere(ts: Tokens): Option<(seq<Predicate>, Tokens)> {
    if At(ts, 0, Key(WHERE)) then ReadConjuncts(ts[1..]) else Some(([], ts))
  }

  function ReadLimit(ts: Tokens): Option<(Option<nat>, Tokens)> {
    if !At(ts, 0, Key(LIMIT)) then Some((None, ts))
    else if |ts| > 1 && ts[1].Num? then Some((Some(ts[1].value), ts[2..]))
    else None
  }

  /** The rest of `SELECT COUNT(*) FROM (SELECT 1 FROM ...) AS t`, from `COUNT` on. */
  function ReadCount(ts: Tokens): Option<Statement> {
    if |ts| >= 9 && ts[..9] == COUNT_HEAD then
      var (s, rest) :- ReadSource(CountRows, ts[9..]);
      if rest == COUNT_TAIL then Some(s) else None
    else None
  }

  const COUNT_HEAD := [Key(COUNT), Punct('('), Op(Star), Punct(')'), Key(FROM), Punct('('), Key(SELECT), Num(1), Key(FROM)]
  const COUNT_TAIL := [Punct(')'), Key(AS), Bare("t")]

  function ReadTokens(ts: Tokens): Option<Statement> {
    if !At(ts, 0, Key(SELECT)) then None
    else if At(ts, 1, Key(COUNT)) then ReadCount(ts[1..])
    else
      var (names, rest) :- ReadColumns(ts[1..]);
      if !At(rest, 0, Key(FROM)) then None else
      var (s, rest') :- ReadSource(Columns(names), rest[1..]);
      if rest' == [] then Some(s) else None
  }

  /** The statement PostgreSQL reads from a text, if it is one of these. */
  function ReadStatement(text: string): Option<Statement> {
    var ts :- Lex(text);
    ReadTokens(ts)
  }

  // ---- The tokens of a tree, and that the reader recovers the tree from them ----

  function ConstantTokens(c: Constant): Tokens {
    match c
    case BoolConst(b) => [Key(if b then TRUE else FALSE)]
    case IntConst(i) => if i < 0 then [Op(Minus), Num(-i)] else [Num(i)]
    case TextConst(s) => [Str(s)]
  }

  function ItemTokens(items: seq<Constant>): Tokens
    requires items != []
  {
    ConstantTokens(items[0]) +
    if |items| == 1 then [Punct(')')] else [Punct(',')] + ItemTokens(items[1..])
  }

  function ComparisonSymbol(op: Comparison): Symbol {
    match op
    case Equal => Equals
    case NotEqual => Differs
    case Less => Below
    case LessOrEqual => AtMost
    case Greater => Above
    case GreaterOrEqual => AtLeast
  }

  /** An `IN` list is never empty (ISO/IEC 9075-2, section 8.4). */
  predicate WellFormed(p: Predicate) {
    match p
    case Member(_, _, items) => items != []
    case Both(l, r) => WellFormed(l) && WellFormed(r)
    case _ => true
  }

  /** What follows the column name in a predicate on one column. */
  function TestTokens(p: Predicate): Tokens
    requires WellFormed(p) && !p.Both?
  {
    match p
    case Compare(_, op, c) => [Op(ComparisonSymbol(op))] + ConstantTokens(c)
    case Null(_) => [Key(IS), Key(NULL)]
    case NotNull(_) => [Key(IS), Key(NOT), Key(NULL)]
    case Member(_, negated, items) =>
      (if negated then [Key(NOT), Key(IN)] else [Key(IN)]) + ([Punct('(')] + ItemTokens(items))
  }

  function PredicateTokens(p: Predicate): Tokens
    requires WellFormed(p)
  {
    match p
    case Both(l, r) => [Punct('(')] + (PredicateTokens(l) + ([Key(AND)] + (PredicateTokens(r) + [Punct(')')])))
    case _ => [Ident(p.column)] + TestTokens(p)
  }

  function ConjunctTokens(ps: seq<Predicate>): Tokens
    requires ps != [] && forall p | p in ps :: WellFormed(p)
  {
    PredicateTokens(ps[0]) + if |ps| == 1 then [] else [Key(AND)] + ConjunctTokens(ps[1..])
  }

  function ColumnTokens(names: seq<string>): Tokens
    requires names != []
  {
    [Ident(names[0])] + if |names| == 1 then [] else [Punct(',')] + ColumnTokens(names[1..])
  }

  function SourceTokens(s: Statement): Tokens
    requires forall p | p in s.conjuncts :: WellFormed(p)
  {
    [Ident(s.schemaName)] + ([Punct('.')] + ([Ident(s.tableName)] + (WhereTokens(s.conjuncts) + LimitTokens(s.limit))))
  }

  function WhereTokens(ps: seq<Predicate>): Tokens
    requires forall p | p in ps :: WellFormed(p)
  {
    if ps == [] then [] else [Key(WHERE)] + ConjunctTokens(ps)
  }

  function LimitTokens(limit: Option<nat>): Tokens {
    if limit.None? then [] else [Key(LIMIT), Num(limit.value)]
  }

  ghost predicate StatementWellFormed(s: Statement) {
    (s.projection.Columns? ==> s.projection.names != []) && forall p | p in s.conjuncts :: WellFormed(p)
  }

  function StatementTokens(s: Statement): Tokens
    requires s.projection.Columns? ==> s.projection.names != []
    requires forall p | p in s.conjuncts :: WellFormed(p)
  {
    match s.projection
    case CountRows => [Key(SELECT)] + COUNT_HEAD + SourceTokens(s) + COUNT_TAIL
    case Columns(names) => [Key(SELECT)] + ColumnTokens(names) + [Key(FROM)] + SourceTokens(s)
  }

  lemma Reassociate<T>(a: seq<T>, b: seq<T>, c: seq<T>)
    ensures (a + b) + c == a + (b + c)
  {
  }

  lemma ReadsConstant(c: Constant, rest: Tokens)
    ensures ReadConstant(ConstantTokens(c) + rest) == Some((c, rest))
  {
    var ts := ConstantTokens(c) + rest;
    if c.IntConst? && c.i < 0 {
      assert ts[2..] == rest;
    } else {
      assert ts[1..] == rest;
    }
  }

  lemma {:induction false} ReadsItems(items: seq<Constant>, rest: Tokens)
    requires items != []
    ensures ReadItems(ItemTokens(items) + rest) == Some((items, rest))
  {
    var ts := ItemTokens(items) + rest;
    if |items| == 1 {
      assert ts == ConstantTokens(items[0]) + ([Punct(')')] + rest);
      ReadsConstant(items[0], [Punct(')')] + rest);
      assert ([Punct(')')] + rest)[1..] == rest;
      assert items == [items[0]];
    } else {
      var more := ItemTokens(items[1..]) + rest;
      assert ts == ConstantTokens(items[0]) + ([Punct(',')] + more);
      ReadsConstant(items[0], [Punct(',')] + more);
      assert ([Punct(',')] + more)[1..] == more;
      ReadsItems(items[1..], rest);
      assert items == [items[0]] + items[1..];
    }
  }

  lemma ReadsCompare(column: string, op: Comparison, c: Constant, rest: Tokens)
    ensures ReadColumnTest(column, [Op(ComparisonSymbol(op))] + (ConstantTokens(c) + rest))
         == Some((Compare(column, op, c), rest))
  {
    var ts := [Op(ComparisonSymbol(op))] + (ConstantTokens(c) + rest);
    assert ts[1..] == ConstantTokens(c) + rest;
    ReadsConstant(c, rest);
  }

  lemma ReadsMember(column: string, negated: bool, items: seq<Constant>, rest: Tokens)
    requires items != []
    ensures ReadColumnTest(column, (if negated then [Key(NOT), Key(IN)] else [Key(IN)]) + ([Punct('(')] + (ItemTokens(items) + rest)))
         == Some((Member(column, negated, items), rest))
  {
    var more := ItemTokens(items) + rest;
    var ts := (if negated then [Key(NOT), Key(IN)] else [Key(IN)]) + ([Punct('(')] + more);
    ReadsItems(items, rest);
    if negated {
      assert ts[1] == Key(IN) && ts[2] == Punct('(') && ts[3..] == more;
    } else {
      assert ts[1] == Punct('(') && ts[2..] == more;
    }
  }

  lemma ReadsColumnTest(p: Predicate, rest: Tokens)
    requires WellFormed(p) && !p.Both?
    ensures ReadColumnTest(p.column, TestTokens(p) + rest) == Some((p, rest))
  {
    match p
    case Compare(col, op, c) =>
      Reassociate([Op(ComparisonSymbol(op))], ConstantTokens(c), rest);
      ReadsCompare(col, op, c, rest);
    case Null(_) =>
      assert ([Key(IS), Key(NULL)] + rest)[2..] == rest;
    case NotNull(_) =>
      assert ([Key(IS), Key(NOT), Key(NULL)] + rest)[3..] == rest;
    case Member(col, negated, items) =>
      var head := if negated then [Key(NOT), Key(IN)] else [Key(IN)];
      Reassociate(head, [Punct('(')] + ItemTokens(items), rest);
      Reassociate([Punct('(')], ItemTokens(items), rest);
      ReadsMember(col, negated, items, rest);
  }

  lemma ReadsLastConjunct(ts: Tokens, p: Predicate, rest: Tokens)
    requires ReadPrimary(ts) == Some((p, rest))
    requires rest == [] || rest[0] != Key(AND)
    ensures ReadConjuncts(ts) == Some(([p], rest))
  {
  }

  lemma ReadsMoreConjuncts(ts: Tokens, p: Predicate, more: Tokens, ps: seq<Predicate>, rest: Tokens)
    requires ReadPrimary(ts) == Some((p, [Key(AND)] + more))
    requires ReadConjuncts(more) == Some((ps, rest))
    ensures ReadConjuncts(ts) == Some(([p] + ps, rest))
  {
    assert ([Key(AND)] + more)[1..] == more;
  }

  lemma ReadsParenthesised(ts: Tokens, l: Predicate, r: Predicate, rest: Tokens)
    requires ReadConjuncts(ts) == Some(([l] + [r], [Punct(')')] + rest))
    ensures ReadPrimary([Punct('(')] + ts) == Some((Both(l, r), rest))
  {
    assert ([Punct('(')] + ts)[1..] == ts;
    assert ([Punct(')')] + rest)[1..] == rest;
    assert ([l] + [r])[..1] == [l];
    assert Conjunction([l] + [r]) == Both(Conjunction([l]), r);
  }

  lemma ReadsColumnPrimary(column: string, ts: Tokens, p: Predicate, rest: Tokens)
    requires ReadColumnTest(column, ts) == Some((p, rest))
    ensures ReadPrimary([Ident(column)] + ts) == Some((p, rest))
  {
    assert ([Ident(column)] + ts)[1..] == ts;
  }

  lemma {:induction false} ReadsPrimary(p: Predicate, rest: Tokens)
    requires WellFormed(p)
    ensures ReadPrimary(PredicateTokens(p) + rest) == Some((p, rest))
    decreases p
  {
    match p
    case Both(l, r) =>
      var close := [Punct(')')] + rest;
      var second := PredicateTokens(r) + close;
      var first := PredicateTokens(l) + ([Key(AND)] + second);
      ReadsPrimary(r, close);
      ReadsLastConjunct(second, r, close);
      ReadsPrimary(l, [Key(AND)] + second);
      ReadsMoreConjuncts(first, l, second, [r], close);
      ReadsParenthesised(first, l, r, rest);
      var tl, tr, end := PredicateTokens(l), PredicateTokens(r), [Punct(')')];
      Reassociate([Punct('(')], tl + ([Key(AND)] + (tr + end)), rest);
      Reassociate(tl, [Key(AND)] + (tr + end), rest);
      Reassociate([Key(AND)], tr + end, rest);
      Reassociate(tr, end, rest);
    case _ =>
      ReadsColumnTest(p, rest);
      ReadsColumnPrimary(p.column, TestTokens(p) + rest, p, rest);
      Reassociate([Ident(p.column)], TestTokens(p), rest);
  }

  lemma {:induction false} ReadsConjuncts(ps: seq<Predicate>, rest: Tokens)
    requires ps != [] && forall p | p in ps :: WellFormed(p)
    requires rest == [] || rest[0] != Key(AND)
    ensures ReadConjuncts(ConjunctTokens(ps) + rest) == Some((ps, rest))
  {
    if |ps| == 1 {
      ReadsPrimary(ps[0], rest);
      ReadsLastConjunct(PredicateTokens(ps[0]) + rest, ps[0], rest);
      assert ConjunctTokens(ps) == PredicateTokens(ps[0]);
      assert ps == [ps[0]];
    } else {
      var more := ConjunctTokens(ps[1..]) + rest;
      var ts := PredicateTokens(ps[0]) + ([Key(AND)] + more);
      ReadsPrimary(ps[0], [Key(AND)] + more);
      ReadsConjuncts(ps[1..], rest);
      ReadsMoreConjuncts(ts, ps[0], more, ps[1..], rest);
      Reassociate(PredicateTokens(ps[0]), [Key(AND)] + ConjunctTokens(ps[1..]), rest);
      Reassociate([Key(AND)], ConjunctTokens(ps[1..]), rest);
      assert ps == [ps[0]] + ps[1..];
    }
  }

  lemma {:induction false} ReadsColumns(names: seq<string>, rest: Tokens)
    requires names != [] && (rest == [] || rest[0] != Punct(','))
    ensures ReadColumns(ColumnTokens(names) + rest) == Some((names, rest))
  {
    var ts := ColumnTokens(names) + rest;
    if |names| == 1 {
      assert ts == [Ident(names[0])] + rest;
      assert names == [names[0]];
    } else {
      assert ts == [Ident(names[0]), Punct(',')] + (ColumnTokens(names[1..]) + rest);
      assert ts[2..] == ColumnTokens(names[1..]) + rest;
      ReadsColumns(names[1..], rest);
      assert names == [names[0]] + names[1..];
    }
  }

  lemma ReadsWhere(ps: seq<Predicate>, rest: Tokens)
    requires forall p | p in ps :: WellFormed(p)
    requires rest == [] || (rest[0] != Key(WHERE) && rest[0] != Key(AND))
    ensures ReadWhere(WhereTokens(ps) + rest) == Some((ps, rest))
  {
    if ps == [] {
      assert WhereTokens(ps) + rest == rest;
    } else {
      var ts := ConjunctTokens(ps) + rest;
      assert WhereTokens(ps) + rest == [Key(WHERE)] + ts;
      assert ([Key(WHERE)] + ts)[1..] == ts;
      ReadsConjuncts(ps, rest);
    }
  }

  lemma ReadsLimit(limit: Option<nat>, rest: Tokens)
    requires rest == [] || rest[0] != Key(LIMIT)
    ensures ReadLimit(LimitTokens(limit) + rest) == Some((limit, rest))
  {
    if limit.None? {
      assert LimitTokens(limit) + rest == rest;
    } else {
      assert (LimitTokens(limit) + rest)[2..] == rest;
    }
  }

  lemma ReadsSource(s: Statement, rest: Tokens)
    requires forall p | p in s.conjuncts :: WellFormed(p)
    requires rest == [] || rest[0] == Punct(')')
    ensures ReadSource(s.projection, SourceTokens(s) + rest) == Some((s, rest))
  {
    hide ReadWhere, ReadLimit, WhereTokens, WellFormed;
    var w, tail := WhereTokens(s.conjuncts), LimitTokens(s.limit) + rest;
    ReadsWhere(s.conjuncts, tail);
    ReadsLimit(s.limit, rest);
    hide LimitTokens;
    Reassociate(w, LimitTokens(s.limit), rest);
    var ts := [Ident(s.schemaName), Punct('.'), Ident(s.tableName)] + (w + tail);
    assert SourceTokens(s) + rest == ts;
    assert ts[3..] == w + tail;
  }

  /** The `COUNT(*)` form, from its tokens. */
  lemma ReadsCountStatement(s: Statement)
    requires StatementWellFormed(s) && s.projection.CountRows?
    ensures ReadTokens(StatementTokens(s)) == Some(s)
  {
    hide ReadSource, SourceTokens, ReadColumns, WellFormed, ReadTokens, ReadCount;
    var body := SourceTokens(s) + COUNT_TAIL;
    ReadsSource(s, COUNT_TAIL);
    ReadsCount(s, body);
    Reassociate([Key(SELECT)] + COUNT_HEAD, SourceTokens(s), COUNT_TAIL);
    Reassociate([Key(SELECT)], COUNT_HEAD, body);
    ReadsSelectCount(COUNT_HEAD + body);
  }

  lemma ReadsCount(s: Statement, body: Tokens)
    requires ReadSource(CountRows, body) == Some((s, COUNT_TAIL))
    ensures ReadCount(COUNT_HEAD + body) == Some(s)
  {
    hide ReadSource;
    assert (COUNT_HEAD + body)[..9] == COUNT_HEAD && (COUNT_HEAD + body)[9..] == body;
  }

  lemma ReadsSelectCount(ts: Tokens)
    requires At(ts, 0, Key(COUNT))
    ensures ReadTokens([Key(SELECT)] + ts) == ReadCount(ts)
  {
    hide ReadCount, ReadColumns, ReadSource;
    assert ([Key(SELECT)] + ts)[1..] == ts;
  }

  /** The column form, from its tokens. */
  lemma ReadsColumnStatement(s: Statement)
    requires StatementWellFormed(s) && s.projection.Columns?
    ensures ReadTokens(StatementTokens(s)) == Some(s)
  {
    hide ReadSource, SourceTokens, ReadColumns, ColumnTokens, WellFormed, ReadTokens, ReadCount;
    var names, source := s.projection.names, SourceTokens(s);
    var from := [Key(FROM)] + source;
    ReadsColumns(names, from);
    ReadsSource(s, []);
    assert source + [] == source;
    Reassociate([Key(SELECT)] + ColumnTokens(names), [Key(FROM)], source);
    Reassociate([Key(SELECT)], ColumnTokens(names), from);
    StartsWithAColumn(names, from);
    ReadsSelectColumns(s, ColumnTokens(names) + from, names, source);
  }

  lemma StartsWithAColumn(names: seq<string>, rest: Tokens)
    requires names != []
    ensures ColumnTokens(names) + rest != [] && (ColumnTokens(names) + rest)[0] == Ident(names[0])
  {
  }

  lemma ReadsSelectColumns(s: Statement, ts: Tokens, names: seq<string>, source: Tokens)
    requires ts != [] && ts[0].Ident? && ReadColumns(ts) == Some((names, [Key(FROM)] + source))
    requires ReadSource(Columns(names), source) == Some((s, []))
    ensures ReadTokens([Key(SELECT)] + ts) == Some(s)
  {
    hide ReadCount, ReadColumns, ReadSource;
    assert ([Key(SELECT)] + ts)[1..] == ts;
    assert ([Key(FROM)] + source)[1..] == source;
  }

  /** Every well-formed statement is recovered from its tokens. */
  lemma ReadsStatement(s: Statement)
    requires StatementWellFormed(s)
    ensures ReadTokens(StatementTokens(s)) == Some(s)
  {
    if s.projection.CountRows? {
      ReadsCountStatement(s);
    } else {
      hide ReadTokens, WellFormed;
      ReadsColumnStatement(s);
    }
  }
}
