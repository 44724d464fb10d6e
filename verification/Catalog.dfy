/** Introspected columns become ordered table schemas (src/catalog.rs, lines 51-291). */
module Catalog {
  import opened Options
  import opened Values

  datatype DataType = Int16 | Int32 | Int64 | Float32 | Float64 | Utf8 | Bool | Binary | Date32 | Timestamp(utc: bool)

  /** One row of `information_schema.columns`. */
  datatype ColumnInfo = ColumnInfo(schema: string, table: string, column: string, dataType: string, udtName: string, nullable: bool)

  /** `pgType` is the stamp that tells the decoder which text-like type the column has. */
  datatype ArrowField = ArrowField(name: string, ty: DataType, nullable: bool, pgType: Option<string>)

  datatype TableSchema = TableSchema(schema: string, name: string, fields: seq<ArrowField>)

  function AsciiLower(s: string): string {
    if s == "" then ""
    else [if 'A' <= s[0] <= 'Z' then (s[0] as int + 32) as char else s[0]] + AsciiLower(s[1..])
  }

  function PgTypeToArrow(dataType: string, udtName: string): Option<DataType> {
    match AsciiLower(dataType)
    case "smallint" => Some(Int16)
    case "integer" => Some(Int32)
    case "bigint" => Some(Int64)
    case "real" => Some(Float32)
    case "double precision" => Some(Float64)
    case "text" => Some(Utf8)
    case "character varying" => Some(Utf8)
    case "character" => Some(Utf8)
    case "boolean" => Some(Bool)
    case "bytea" => Some(Binary)
    case "date" => Some(Date32)
    case "timestamp without time zone" => Some(Timestamp(false))
    case "timestamp with time zone" => Some(Timestamp(true))
    case "json" => Some(Utf8)
    case "jsonb" => Some(Utf8)
    case "uuid" => Some(Utf8)
    case _ => UdtToArrow(AsciiLower(udtName))
  }

  function UdtToArrow(udt: string): Option<DataType> {
    match udt
    case "int2" => Some(Int16)
    case "int4" => Some(Int32)
    case "int8" => Some(Int64)
    case "float4" => Some(Float32)
    case "float8" => Some(Float64)
    case "text" => Some(Utf8)
    case "varchar" => Some(Utf8)
    case "bpchar" => Some(Utf8)
    case "bool" => Some(Bool)
    case "bytea" => Some(Binary)
    case "date" => Some(Date32)
    case "timestamp" => Some(Timestamp(false))
    case "timestamptz" => Some(Timestamp(true))
    case "json" => Some(Utf8)
    case "jsonb" => Some(Utf8)
    case "uuid" => Some(Utf8)
    case _ => None
  }

  predicate IsStamp(ty: string) {
    ty == "uuid" || ty == "json" || ty == "jsonb"
  }

  function AmbiguousPgType(dataType: string, udtName: string): Option<string> {
    if IsStamp(AsciiLower(dataType)) then Some(AsciiLower(dataType))
    else if IsStamp(AsciiLower(udtName)) then Some(AsciiLower(udtName))
    else None
  }

  /** The Arrow field of a column, if its type has one. */
  function FieldOf(c: ColumnInfo): Option<ArrowField> {
    var ty :- PgTypeToArrow(c.dataType, c.udtName);
    Some(ArrowField(c.column, ty, c.nullable, AmbiguousPgType(c.dataType, c.udtName)))
  }

  // ---- Grouping ----

  type TableKey = (string, string)

  function KeyOf(c: ColumnInfo): TableKey {
    (c.schema, c.table)
  }

  function TableKeyOf(t: TableSchema): TableKey {
    (t.schema, t.name)
  }

  /** The tables gathered so far, one column later. A column without a type still opens its table. */
  function AddColumn(tables: seq<TableSchema>, c: ColumnInfo): seq<TableSchema> {
    var field := FieldOf(c);
    var n := |tables|;
    if n > 0 && TableKeyOf(tables[n - 1]) == KeyOf(c) then
      match field
      case Some(f) => tables[n - 1 := tables[n - 1].(fields := tables[n - 1].fields + [f])]
      case None => tables
    else tables + [TableSchema(c.schema, c.table, if field.Some? then [field.value] else [])]
  }

  function Gathered(columns: seq<ColumnInfo>): seq<TableSchema> {
    if columns == [] then [] else AddColumn(Gathered(columns[..|columns| - 1]), columns[|columns| - 1])
  }

  /** The tables that have a field. */
  function WithFields(tables: seq<TableSchema>): seq<TableSchema> {
    if tables == [] then []
    else WithFields(tables[..|tables| - 1]) + if tables[|tables| - 1].fields == [] then [] else [tables[|tables| - 1]]
  }

  method GroupColumnsIntoTables(columns: seq<ColumnInfo>) returns (result: seq<TableSchema>)
    ensures result == WithFields(Gathered(columns))
  {
    var tables: seq<TableSchema> := [];
    for i := 0 to |columns|
      invariant tables == Gathered(columns[..i])
    {
      assert columns[..i + 1][..i] == columns[..i];
      var col := columns[i];
      var n := |tables|;
      var sameTable := n > 0 && TableKeyOf(tables[n - 1]) == KeyOf(col);
      match FieldOf(col)
      case Some(field) =>
        if sameTable {
          tables := tables[n - 1 := tables[n - 1].(fields := tables[n - 1].fields + [field])];
        } else {
          tables := tables + [TableSchema(col.schema, col.table, [field])];
        }
      case None =>
        if !sameTable {
          tables := tables + [TableSchema(col.schema, col.table, [])];
        }
    }
    assert columns[..|columns|] == columns;
    result := [];
    for i := 0 to |tables|
      invariant result == WithFields(tables[..i])
    {
      assert tables[..i + 1][..i] == tables[..i];
      if tables[i].fields != [] {
        result := result + [tables[i]];
      }
    }
    assert tables[..|tables|] == tables;
  }

  /** The columns of one table are adjacent, as the introspection query orders them. */
  ghost predicate TableOrdered(columns: seq<ColumnInfo>) {
    forall i, j, k | 0 <= i < j < k < |columns| :: KeyOf(columns[i]) == KeyOf(columns[k]) ==> KeyOf(columns[j]) == KeyOf(columns[i])
  }

  /** The fields of a table's typed columns, in order. */
  function FieldsOf(columns: seq<ColumnInfo>, key: TableKey): seq<ArrowField> {
    if columns == [] then []
    else
      var c := columns[|columns| - 1];
      FieldsOf(columns[..|columns| - 1], key)
      + if KeyOf(c) == key && FieldOf(c).Some? then [FieldOf(c).value] else []
  }

  ghost predicate DistinctTables(tables: seq<TableSchema>) {
    forall i, j | 0 <= i < j < |tables| :: TableKeyOf(tables[i]) != TableKeyOf(tables[j])
  }

  ghost predicate HasTable(tables: seq<TableSchema>, key: TableKey) {
    exists i | 0 <= i < |tables| :: TableKeyOf(tables[i]) == key
  }

  lemma {:induction false} NoColumnNoFields(columns: seq<ColumnInfo>, key: TableKey)
    requires forall i | 0 <= i < |columns| :: KeyOf(columns[i]) != key
    ensures FieldsOf(columns, key) == []
  {
    if columns != [] {
      NoColumnNoFields(columns[..|columns| - 1], key);
    }
  }

  ghost predicate HasColumnOf(columns: seq<ColumnInfo>, key: TableKey) {
    exists j | 0 <= j < |columns| :: KeyOf(columns[j]) == key
  }

  lemma HasColumnOfLonger(columns: seq<ColumnInfo>, key: TableKey)
    requires columns != []
    ensures HasColumnOf(columns, key) <==> HasColumnOf(columns[..|columns| - 1], key) || KeyOf(columns[|columns| - 1]) == key
  {
    var init := columns[..|columns| - 1];
    if j :| 0 <= j < |init| && KeyOf(init[j]) == key {
      assert KeyOf(columns[j]) == key;
    }
    if j :| 0 <= j < |columns| && KeyOf(columns[j]) == key {
      assert j < |init| ==> KeyOf(init[j]) == key;
    }
  }

  lemma HasTableAfter(tables: seq<TableSchema>, c: ColumnInfo, key: TableKey)
    ensures HasTable(AddColumn(tables, c), key) <==> HasTable(tables, key) || KeyOf(c) == key
  {
    hide FieldOf;
    var after := AddColumn(tables, c);
    assert forall i | 0 <= i < |tables| :: TableKeyOf(after[i]) == TableKeyOf(tables[i]);
    assert TableKeyOf(after[|after| - 1]) == KeyOf(c);
    if i :| 0 <= i < |tables| && TableKeyOf(tables[i]) == key {
      assert TableKeyOf(after[i]) == key;
    }
    if i :| 0 <= i < |after| && TableKeyOf(after[i]) == key {
      assert i < |tables| ==> TableKeyOf(tables[i]) == key;
    }
  }

  /** The tables gathered are those of the columns, and the last is the last column's. */
  lemma {:induction false} GatheredKeys(columns: seq<ColumnInfo>, key: TableKey)
    ensures HasTable(Gathered(columns), key) <==> HasColumnOf(columns, key)
    ensures columns != [] ==>
      Gathered(columns) != [] && TableKeyOf(Gathered(columns)[|Gathered(columns)| - 1]) == KeyOf(columns[|columns| - 1])
  {
    hide FieldOf;
    if columns != [] {
      GatheredKeys(columns[..|columns| - 1], key);
      HasTableAfter(Gathered(columns[..|columns| - 1]), columns[|columns| - 1], key);
      HasColumnOfLonger(columns, key);
    }
  }

  /** In table order, a column that does not continue the last table opens a new one. */
  lemma NewTableIsNew(columns: seq<ColumnInfo>)
    requires TableOrdered(columns) && |columns| > 1 && KeyOf(columns[|columns| - 2]) != KeyOf(columns[|columns| - 1])
    ensures !HasColumnOf(columns[..|columns| - 1], KeyOf(columns[|columns| - 1]))
  {
    var init, n := columns[..|columns| - 1], |columns|;
    forall j | 0 <= j < |init| ensures KeyOf(init[j]) != KeyOf(columns[n - 1]) {
      assert init[j] == columns[j] && KeyOf(columns[n - 2]) != KeyOf(columns[n - 1]);
    }
  }

  lemma {:induction false} GatheredTables(columns: seq<ColumnInfo>)
    requires TableOrdered(columns)
    ensures DistinctTables(Gathered(columns))
    ensures forall i | 0 <= i < |Gathered(columns)| :: Gathered(columns)[i].fields == FieldsOf(columns, TableKeyOf(Gathered(columns)[i]))
  {
    hide FieldOf, TableOrdered;
    if columns != [] {
      var init, c := columns[..|columns| - 1], columns[|columns| - 1];
      OrderedPrefix(columns);
      GatheredTables(init);
      GatheredKeys(init, KeyOf(c));
      var before, ts := Gathered(init), Gathered(columns);
      if init != [] && KeyOf(init[|init| - 1]) == KeyOf(c) {
        assert |ts| == |before| && forall i | 0 <= i < |ts| :: TableKeyOf(ts[i]) == TableKeyOf(before[i]);
      } else {
        if init != [] {
          NewTableIsNew(columns);
        }
        assert !HasColumnOf(init, KeyOf(c));
        NoColumnNoFields(init, KeyOf(c));
        assert ts[..|before|] == before && |ts| == |before| + 1;
        forall i | 0 <= i < |before| ensures TableKeyOf(before[i]) != KeyOf(c) {
          assert !HasTable(before, KeyOf(c));
        }
      }
    }
  }

  lemma OrderedPrefix(columns: seq<ColumnInfo>)
    requires TableOrdered(columns) && columns != []
    ensures TableOrdered(columns[..|columns| - 1])
  {
  }

  lemma {:induction false} WithFieldsKeeps(tables: seq<TableSchema>)
    requires DistinctTables(tables)
    ensures DistinctTables(WithFields(tables))
    ensures forall t | t in WithFields(tables) :: t in tables && t.fields != []
    ensures forall t | t in tables && t.fields != [] :: t in WithFields(tables)
  {
    if tables != [] {
      var init, last := tables[..|tables| - 1], tables[|tables| - 1];
      WithFieldsKeeps(init);
      var kept := WithFields(init);
      assert tables == init + [last];
      forall i | 0 <= i < |kept| ensures TableKeyOf(kept[i]) != TableKeyOf(last) {
        assert kept[i] in init;
        var j :| 0 <= j < |init| && init[j] == kept[i];
        assert tables[j] == kept[i] && tables[|tables| - 1] == last;
      }
    }
  }

  /**
   Grouping conserves columns: from table-ordered input, exactly one schema for
   each table with a typed column, its fields exactly those columns in order.
   */
  lemma GroupingConservesColumns(columns: seq<ColumnInfo>)
    requires TableOrdered(columns)
    ensures var result := WithFields(Gathered(columns));
      && DistinctTables(result)
      && (forall t | t in result :: t.fields == FieldsOf(columns, TableKeyOf(t)) && t.fields != [])
      && (forall key :: HasTable(result, key) <==> FieldsOf(columns, key) != [])
  {
    GatheredTables(columns);
    var ts, result := Gathered(columns), WithFields(Gathered(columns));
    WithFieldsKeeps(ts);
    forall t | t in result ensures t.fields == FieldsOf(columns, TableKeyOf(t)) && t.fields != [] {
      var i :| 0 <= i < |ts| && ts[i] == t;
    }
    forall key ensures HasTable(result, key) <==> FieldsOf(columns, key) != [] {
      GatheredKeys(columns, key);
      if HasTable(result, key) {
        var i :| 0 <= i < |result| && TableKeyOf(result[i]) == key;
        assert result[i] in result;
      }
      if FieldsOf(columns, key) != [] {
        if !HasColumnOf(columns, key) {
          NoColumnNoFields(columns, key);
        }
        var i :| 0 <= i < |ts| && TableKeyOf(ts[i]) == key;
        assert ts[i] in result;
        var n :| 0 <= n < |result| && result[n] == ts[i];
        assert TableKeyOf(result[n]) == key;
      }
    }
  }

  // ---- Ordering ----

  /** Position in the configured schema list; an unlisted schema comes after all. */
  function Rank(schemas: seq<string>, schema: string): nat {
    if schemas == [] then 0 else if schemas[0] == schema then 0 else 1 + Rank(schemas[1..], schema)
  }

  predicate AtMost(schemas: seq<string>, a: TableSchema, b: TableSchema) {
    var ra, rb := Rank(schemas, a.schema), Rank(schemas, b.schema);
    ra < rb || (ra == rb && !BytesLess(b.name, a.name))
  }

  predicate Tied(schemas: seq<string>, a: TableSchema, b: TableSchema) {
    AtMost(schemas, a, b) && AtMost(schemas, b, a)
  }

  ghost predicate Sorted(schemas: seq<string>, tables: seq<TableSchema>) {
    forall i, j | 0 <= i < j < |tables| :: AtMost(schemas, tables[i], tables[j])
  }

  /** The tables tied with `x`, in order. */
  function Ties(schemas: seq<string>, tables: seq<TableSchema>, x: TableSchema): seq<TableSchema> {
    if tables == [] then []
    else (if Tied(schemas, tables[0], x) then [tables[0]] else []) + Ties(schemas, tables[1..], x)
  }

  function Insert(schemas: seq<string>, x: TableSchema, tables: seq<TableSchema>): seq<TableSchema> {
    if tables == [] then [x]
    else if AtMost(schemas, x, tables[0]) then [x] + tables
    else [tables[0]] + Insert(schemas, x, tables[1..])
  }

  /** A stable sort by schema priority, then name, as `sort_by` is. */
  function OrderBySchemaPriority(tables: seq<TableSchema>, schemas: seq<string>): seq<TableSchema> {
    if tables == [] then [] else Insert(schemas, tables[0], OrderBySchemaPriority(tables[1..], schemas))
  }

  lemma AtMostIsTotalPreorder(schemas: seq<string>, a: TableSchema, b: TableSchema, c: TableSchema)
    ensures AtMost(schemas, a, b) || AtMost(schemas, b, a)
    ensures AtMost(schemas, a, b) && AtMost(schemas, b, c) ==> AtMost(schemas, a, c)
  {
    BytesLessIsTotalOrder(a.name, b.name, c.name);
  }

  lemma {:induction false} InsertPermutes(schemas: seq<string>, x: TableSchema, tables: seq<TableSchema>)
    ensures multiset(Insert(schemas, x, tables)) == multiset(tables) + multiset{x}
  {
    hide AtMost;
    if tables != [] {
      assert tables == [tables[0]] + tables[1..];
      if !AtMost(schemas, x, tables[0]) {
        InsertPermutes(schemas, x, tables[1..]);
      }
    }
  }

  lemma InsertedMembers(schemas: seq<string>, x: TableSchema, tables: seq<TableSchema>, i: nat)
    requires i < |Insert(schemas, x, tables)|
    ensures Insert(schemas, x, tables)[i] == x || Insert(schemas, x, tables)[i] in tables
  {
    hide Insert;
    InsertPermutes(schemas, x, tables);
    assert Insert(schemas, x, tables)[i] in multiset(Insert(schemas, x, tables));
  }

  lemma SortedPush(schemas: seq<string>, x: TableSchema, tables: seq<TableSchema>)
    requires Sorted(schemas, tables) && forall i | 0 <= i < |tables| :: AtMost(schemas, x, tables[i])
    ensures Sorted(schemas, [x] + tables)
  {
  }

  lemma {:induction false} InsertSorts(schemas: seq<string>, x: TableSchema, tables: seq<TableSchema>)
    requires Sorted(schemas, tables)
    ensures Sorted(schemas, Insert(schemas, x, tables))
  {
    hide AtMost;
    if tables != [] {
      var y, rest := tables[0], tables[1..];
      AtMostIsTotalPreorder(schemas, x, y, x);
      if AtMost(schemas, x, y) {
        forall i | 0 <= i < |tables| ensures AtMost(schemas, x, tables[i]) {
          AtMostIsTotalPreorder(schemas, x, y, tables[i]);
        }
        SortedPush(schemas, x, tables);
      } else {
        InsertSorts(schemas, x, rest);
        forall i | 0 <= i < |Insert(schemas, x, rest)| ensures AtMost(schemas, y, Insert(schemas, x, rest)[i]) {
          InsertedMembers(schemas, x, rest, i);
        }
        SortedPush(schemas, y, Insert(schemas, x, rest));
      }
    }
  }

  lemma {:induction false} InsertKeepsTies(schemas: seq<string>, x: TableSchema, tables: seq<TableSchema>, y: TableSchema)
    ensures Ties(schemas, Insert(schemas, x, tables), y) == Ties(schemas, [x] + tables, y)
  {
    hide AtMost;
    assert ([x] + tables)[1..] == tables;
    if tables != [] && !AtMost(schemas, x, tables[0]) {
      InsertKeepsTies(schemas, x, tables[1..], y);
      assert ([x] + tables[1..])[1..] == tables[1..];
      var rest := Insert(schemas, x, tables[1..]);
      assert ([tables[0]] + rest)[1..] == rest;
      if Tied(schemas, tables[0], y) && Tied(schemas, x, y) {
        AtMostIsTotalPreorder(schemas, x, y, tables[0]);
      }
    }
  }

  /** The result is a permutation, sorted by schema priority then name, and stable on ties. */
  lemma {:induction false} OrderingSorts(tables: seq<TableSchema>, schemas: seq<string>, y: TableSchema)
    ensures Sorted(schemas, OrderBySchemaPriority(tables, schemas))
    ensures multiset(OrderBySchemaPriority(tables, schemas)) == multiset(tables)
    ensures Ties(schemas, OrderBySchemaPriority(tables, schemas), y) == Ties(schemas, tables, y)
  {
    if tables != [] {
      OrderingSorts(tables[1..], schemas, y);
      var rest := OrderBySchemaPriority(tables[1..], schemas);
      InsertSorts(schemas, tables[0], rest);
      InsertPermutes(schemas, tables[0], rest);
      InsertKeepsTies(schemas, tables[0], rest, y);
      assert ([tables[0]] + rest)[1..] == rest;
      assert tables == [tables[0]] + tables[1..];
    }
  }

  lemma {:induction false} TiesAreMembers(schemas: seq<string>, tables: seq<TableSchema>, x: TableSchema)
    ensures forall t :: t in Ties(schemas, tables, x) <==> t in tables && Tied(schemas, t, x)
  {
    if tables != [] {
      TiesAreMembers(schemas, tables[1..], x);
      assert tables == [tables[0]] + tables[1..];
    }
  }

  /**
   A stable sort's outcome is unique: any order that is sorted and keeps every
   group of ties in its original order is the one above, so it does not matter
   how the library sorts.
   */
  lemma {:induction false} StableOrderIsUnique(schemas: seq<string>, r: seq<TableSchema>, s: seq<TableSchema>)
    requires Sorted(schemas, r) && Sorted(schemas, s)
    requires forall x :: Ties(schemas, r, x) == Ties(schemas, s, x)
    ensures r == s
  {
    hide AtMost;
    if r == [] || s == [] {
      if r != [] {
        FirstIsInTies(schemas, r);
      } else if s != [] {
        FirstIsInTies(schemas, s);
      }
    } else {
      FirstsAgree(schemas, r, s);
      forall x ensures Ties(schemas, r[1..], x) == Ties(schemas, s[1..], x) {
        var head := if Tied(schemas, r[0], x) then [r[0]] else [];
        assert Ties(schemas, r, x) == head + Ties(schemas, r[1..], x);
        assert Ties(schemas, s, x) == head + Ties(schemas, s[1..], x);
        assert Ties(schemas, r[1..], x) == Ties(schemas, r, x)[|head|..];
        assert Ties(schemas, s[1..], x) == Ties(schemas, s, x)[|head|..];
      }
      StableOrderIsUnique(schemas, r[1..], s[1..]);
      assert r == [r[0]] + r[1..] && s == [s[0]] + s[1..];
    }
  }

  lemma FirstIsInTies(schemas: seq<string>, r: seq<TableSchema>)
    requires r != []
    ensures Ties(schemas, r, r[0]) != [] && Ties(schemas, r, r[0])[0] == r[0]
  {
    AtMostIsTotalPreorder(schemas, r[0], r[0], r[0]);
  }

  lemma FirstsAgree(schemas: seq<string>, r: seq<TableSchema>, s: seq<TableSchema>)
    requires r != [] && s != [] && Sorted(schemas, r) && Sorted(schemas, s)
    requires forall x :: Ties(schemas, r, x) == Ties(schemas, s, x)
    ensures r[0] == s[0]
  {
    hide AtMost;
    var a, b := r[0], s[0];
    FirstIsInTies(schemas, r);
    FirstIsInTies(schemas, s);
    TiesAreMembers(schemas, s, a);
    TiesAreMembers(schemas, r, b);
    assert a in Ties(schemas, s, a) && b in Ties(schemas, r, b);
    AtMostIsTotalPreorder(schemas, a, a, a);
    AtMostIsTotalPreorder(schemas, b, b, b);
    var i :| 0 <= i < |s| && s[i] == a;
    var j :| 0 <= j < |r| && r[j] == b;
    assert AtMost(schemas, b, a) && AtMost(schemas, a, b);
    assert Ties(schemas, s, a)[0] == b;
  }
}
