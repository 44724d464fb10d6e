/** What pushdown needs to know of an introspected table: how PostgreSQL compares its columns, and which of them Arrow shows. */
module TableTypes {
  import opened Options
  import opened Values
  import opened Catalog
  import PostgresTable
  import PushdownPlan
  import P = Postgres

  /** PostgreSQL's own reading of the type names that `PgTypeToArrow` maps (PostgreSQL documentation, chapter 8). */
  function ColumnTypeOf(c: ColumnInfo): ColumnType {
    match AsciiLower(c.dataType)
    case "smallint" | "integer" | "bigint" => IntegerColumn
    case "boolean" => BooleanColumn
    case "text" | "character varying" => TextColumn
    case "character" | "json" | "jsonb" | "uuid" => TextLikeColumn
    case "real" | "double precision" | "bytea" | "date" | "timestamp without time zone" | "timestamp with time zone" => OtherColumn
    case _ => UdtColumnType(AsciiLower(c.udtName))
  }

  function UdtColumnType(udt: string): ColumnType {
    match udt
    case "int2" | "int4" | "int8" => IntegerColumn
    case "bool" => BooleanColumn
    case "text" | "varchar" => TextColumn
    case "bpchar" | "json" | "jsonb" | "uuid" => TextLikeColumn
    case _ => OtherColumn
  }

  /** The Arrow types whose values the model reads as values of this column type. */
  predicate ReadsAs(ty: DataType, column: ColumnType) {
    match ty
    case Bool => column == BooleanColumn
    case Int16 | Int32 | Int64 => column == IntegerColumn
    case Utf8 => column == TextColumn || column == TextLikeColumn
    case _ => column == OtherColumn
  }

  lemma ColumnReadsAsItsField(c: ColumnInfo)
    ensures match FieldOf(c)
      case Some(f) => f.name == c.column && ReadsAs(f.ty, ColumnTypeOf(c))
      case None => ColumnTypeOf(c) == OtherColumn
  {
    hide AsciiLower, UdtToArrow, UdtColumnType, AmbiguousPgType;
    UdtReadsAsItsField(AsciiLower(c.udtName));
  }

  lemma UdtReadsAsItsField(udt: string)
    ensures match UdtToArrow(udt)
      case Some(ty) => ReadsAs(ty, UdtColumnType(udt))
      case None => UdtColumnType(udt) == OtherColumn
  {
  }

  /** All columns of a table, as PostgreSQL has them. */
  function StoredSchema(columns: seq<ColumnInfo>, key: TableKey): Schema {
    if columns == [] then []
    else
      var c := columns[|columns| - 1];
      StoredSchema(columns[..|columns| - 1], key) + if KeyOf(c) == key then [Field(c.column, ColumnTypeOf(c))] else []
  }

  /** The columns Arrow has a type for: the schema a scan and the translator see. */
  function VisibleSchema(columns: seq<ColumnInfo>, key: TableKey): Schema {
    if columns == [] then []
    else
      var c := columns[|columns| - 1];
      VisibleSchema(columns[..|columns| - 1], key)
      + if KeyOf(c) == key && FieldOf(c).Some? then [Field(c.column, ColumnTypeOf(c))] else []
  }

  /** The visible schema is the catalog's table schema, field by field. */
  lemma {:induction false} VisibleSchemaIsTheFields(columns: seq<ColumnInfo>, key: TableKey)
    ensures |VisibleSchema(columns, key)| == |FieldsOf(columns, key)|
    ensures forall i | 0 <= i < |VisibleSchema(columns, key)| ::
      && VisibleSchema(columns, key)[i].name == FieldsOf(columns, key)[i].name
      && ReadsAs(FieldsOf(columns, key)[i].ty, VisibleSchema(columns, key)[i].ty)
  {
    hide FieldOf, ColumnTypeOf, ReadsAs;
    if columns != [] {
      VisibleSchemaIsTheFields(columns[..|columns| - 1], key);
      ColumnReadsAsItsField(columns[|columns| - 1]);
    }
  }

  lemma {:induction false} VisibleFieldsAreStored(columns: seq<ColumnInfo>, key: TableKey)
    ensures forall f | f in VisibleSchema(columns, key) :: f in StoredSchema(columns, key)
  {
    hide FieldOf, ColumnTypeOf;
    if columns != [] {
      VisibleFieldsAreStored(columns[..|columns| - 1], key);
    }
  }

  lemma UniqueNameHasOneType(schema: Schema, f: Field)
    requires UniqueNames(schema) && f in schema
    ensures TypeOf(schema, f.name) == Some(f.ty)
  {
    var i :| 0 <= i < |schema| && schema[i] == f;
    assert HasColumn(schema, f.name);
    var j :| 0 <= j < |schema| && schema[j] == Field(f.name, TypeOf(schema, f.name).value);
    assert i == j;
  }

  /**
   A table's visible columns have the types PostgreSQL compares them by, whatever
   other columns the table has, as long as its column names are distinct.
   */
  lemma VisibleTypesAreTheStoredOnes(columns: seq<ColumnInfo>, key: TableKey)
    requires UniqueNames(StoredSchema(columns, key))
    ensures SameTypes(StoredSchema(columns, key), VisibleSchema(columns, key))
  {
    hide StoredSchema, VisibleSchema, UniqueNames;
    var stored, visible := StoredSchema(columns, key), VisibleSchema(columns, key);
    VisibleFieldsAreStored(columns, key);
    forall c | HasColumn(visible, c) ensures TypeOf(stored, c) == TypeOf(visible, c) {
      var i :| 0 <= i < |visible| && visible[i] == Field(c, TypeOf(visible, c).value);
      assert visible[i] in visible;
      UniqueNameHasOneType(stored, visible[i]);
    }
  }

  /**
   What the results about pushdown ask of the database, `Hosts`, holds of every
   introspected table that still has the columns introspection reported.
   */
  lemma IntrospectedTablesAreHosted(db: P.Database, columns: seq<ColumnInfo>, key: TableKey, filterPushdown: bool)
    requires key in db && db[key].schema == StoredSchema(columns, key) && UniqueNames(StoredSchema(columns, key))
    requires forall i | 0 <= i < |db[key].rows| :: Conforms(db[key].rows[i], StoredSchema(columns, key))
    ensures PushdownPlan.Hosts(db, PostgresTable.Source(key.0, key.1, VisibleSchema(columns, key), filterPushdown))
  {
    hide StoredSchema, VisibleSchema, UniqueNames, SameTypes;
    VisibleTypesAreTheStoredOnes(columns, key);
    VisibleFieldsAreStored(columns, key);
    var stored, visible := StoredSchema(columns, key), VisibleSchema(columns, key);
    forall i | 0 <= i < |db[key].rows| ensures Conforms(db[key].rows[i], visible) {
      forall j | 0 <= j < |visible| ensures HasType(Get(db[key].rows[i], visible[j].name), visible[j].ty) {
        assert visible[j] in visible;
      }
    }
  }

  /**
   The Arrow field of a blank-padded column is that of a plain text column: no
   translator could tell them apart by the schema it is given.
   */
  lemma BlankPaddedLooksLikeText(schema: string, table: string, column: string, nullable: bool)
    returns (padded: ColumnInfo, plain: ColumnInfo)
    ensures FieldOf(padded) == FieldOf(plain) == Some(ArrowField(column, Utf8, nullable, None))
    ensures ColumnTypeOf(padded) == TextLikeColumn && ColumnTypeOf(plain) == TextColumn
  {
    hide AsciiLower;
    padded := ColumnInfo(schema, table, column, "character", "bpchar", nullable);
    plain := ColumnInfo(schema, table, column, "text", "text", nullable);
    LowerCaseStays("character");
    LowerCaseStays("bpchar");
    LowerCaseStays("text");
  }

  lemma {:induction false} LowerCaseStays(s: string)
    requires forall i | 0 <= i < |s| :: !('A' <= s[i] <= 'Z')
    ensures AsciiLower(s) == s
  {
    if s != "" {
      LowerCaseStays(s[1..]);
    }
  }

  // ---- The mapping of type names, in full ----

  /** A type: its SQL name, its internal name, and the Arrow type it is mapped to. */
  datatype NamedType = NamedType(sqlName: string, udtName: string, ty: DataType)

  const NAMED_TYPES: seq<NamedType> := [
    NamedType("smallint", "int2", Int16),
    NamedType("integer", "int4", Int32),
    NamedType("bigint", "int8", Int64),
    NamedType("real", "float4", Float32),
    NamedType("double precision", "float8", Float64),
    NamedType("text", "text", Utf8),
    NamedType("character varying", "varchar", Utf8),
    NamedType("character", "bpchar", Utf8),
    NamedType("boolean", "bool", Bool),
    NamedType("bytea", "bytea", Binary),
    NamedType("date", "date", Date32),
    NamedType("timestamp without time zone", "timestamp", Timestamp(false)),
    NamedType("timestamp with time zone", "timestamptz", Timestamp(true)),
    NamedType("json", "json", Utf8),
    NamedType("jsonb", "jsonb", Utf8),
    NamedType("uuid", "uuid", Utf8)]

  /** `t` is `s` with its ASCII capitals made small. */
  predicate IsLowerOf(t: string, s: string) {
    |t| == |s| && forall i | 0 <= i < |s| :: t[i] as int == s[i] as int + if 'A' <= s[i] <= 'Z' then 32 else 0
  }

  lemma {:induction false} AsciiLowerIsLower(s: string)
    ensures IsLowerOf(AsciiLower(s), s)
  {
    if s != "" {
      AsciiLowerIsLower(s[1..]);
    }
  }

  lemma LowerIsUnique(t: string, s: string)
    requires IsLowerOf(t, s)
    ensures t == AsciiLower(s)
  {
    AsciiLowerIsLower(s);
  }

  lemma UdtNamesAreMapped(n: nat)
    requires n < |NAMED_TYPES|
    ensures UdtToArrow(NAMED_TYPES[n].udtName) == Some(NAMED_TYPES[n].ty)
  {
  }

  lemma OtherUdtNamesAreNot(udt: string)
    requires forall n | 0 <= n < |NAMED_TYPES| :: NAMED_TYPES[n].udtName != udt
    ensures UdtToArrow(udt).None?
  {
    assert NAMED_TYPES[0].udtName == "int2" && NAMED_TYPES[1].udtName == "int4" && NAMED_TYPES[2].udtName == "int8";
    assert NAMED_TYPES[3].udtName == "float4" && NAMED_TYPES[4].udtName == "float8" && NAMED_TYPES[5].udtName == "text";
    assert NAMED_TYPES[6].udtName == "varchar" && NAMED_TYPES[7].udtName == "bpchar" && NAMED_TYPES[8].udtName == "bool";
    assert NAMED_TYPES[9].udtName == "bytea" && NAMED_TYPES[10].udtName == "date" && NAMED_TYPES[11].udtName == "timestamp";
    assert NAMED_TYPES[12].udtName == "timestamptz" && NAMED_TYPES[13].udtName == "json" && NAMED_TYPES[14].udtName == "jsonb";
    assert NAMED_TYPES[15].udtName == "uuid";
  }

  lemma SqlNamesAreMapped(n: nat, dataType: string, udtName: string)
    requires n < |NAMED_TYPES| && AsciiLower(dataType) == NAMED_TYPES[n].sqlName
    ensures PgTypeToArrow(dataType, udtName) == Some(NAMED_TYPES[n].ty)
  {
    hide AsciiLower, UdtToArrow;
  }

  lemma OtherSqlNamesAreNot(dataType: string, udtName: string)
    requires forall n | 0 <= n < |NAMED_TYPES| :: NAMED_TYPES[n].sqlName != AsciiLower(dataType)
    ensures PgTypeToArrow(dataType, udtName) == UdtToArrow(AsciiLower(udtName))
  {
    hide AsciiLower, UdtToArrow;
    assert NAMED_TYPES[0].sqlName == "smallint" && NAMED_TYPES[1].sqlName == "integer" && NAMED_TYPES[2].sqlName == "bigint";
    assert NAMED_TYPES[3].sqlName == "real" && NAMED_TYPES[4].sqlName == "double precision" && NAMED_TYPES[5].sqlName == "text";
    assert NAMED_TYPES[6].sqlName == "character varying" && NAMED_TYPES[7].sqlName == "character" && NAMED_TYPES[8].sqlName == "boolean";
    assert NAMED_TYPES[9].sqlName == "bytea" && NAMED_TYPES[10].sqlName == "date";
    assert NAMED_TYPES[11].sqlName == "timestamp without time zone" && NAMED_TYPES[12].sqlName == "timestamp with time zone";
    assert NAMED_TYPES[13].sqlName == "json" && NAMED_TYPES[14].sqlName == "jsonb" && NAMED_TYPES[15].sqlName == "uuid";
  }

  /**
   The mapping in full, in any letter case: a SQL name decides; only if it is none of
   the sixteen the internal name does; otherwise there is no type.
   */
  lemma TypeNamesAreMapped(dataType: string, udtName: string, sql: string, udt: string)
    requires IsLowerOf(sql, dataType) && IsLowerOf(udt, udtName)
    ensures forall n | 0 <= n < |NAMED_TYPES| && NAMED_TYPES[n].sqlName == sql ::
      PgTypeToArrow(dataType, udtName) == Some(NAMED_TYPES[n].ty)
    ensures (forall n | 0 <= n < |NAMED_TYPES| :: NAMED_TYPES[n].sqlName != sql) ==>
      && (forall n | 0 <= n < |NAMED_TYPES| && NAMED_TYPES[n].udtName == udt :: PgTypeToArrow(dataType, udtName) == Some(NAMED_TYPES[n].ty))
      && ((forall n | 0 <= n < |NAMED_TYPES| :: NAMED_TYPES[n].udtName != udt) ==> PgTypeToArrow(dataType, udtName).None?)
  {
    hide PgTypeToArrow, UdtToArrow, AsciiLower, IsLowerOf, NAMED_TYPES;
    LowerIsUnique(sql, dataType);
    LowerIsUnique(udt, udtName);
    forall n: nat | n < |NAMED_TYPES| && NAMED_TYPES[n].sqlName == sql ensures PgTypeToArrow(dataType, udtName) == Some(NAMED_TYPES[n].ty) {
      SqlNamesAreMapped(n, dataType, udtName);
    }
    if forall n | 0 <= n < |NAMED_TYPES| :: NAMED_TYPES[n].sqlName != sql {
      OtherSqlNamesAreNot(dataType, udtName);
      forall n: nat | n < |NAMED_TYPES| && NAMED_TYPES[n].udtName == udt ensures UdtToArrow(udt) == Some(NAMED_TYPES[n].ty) {
        UdtNamesAreMapped(n);
      }
      if forall n | 0 <= n < |NAMED_TYPES| :: NAMED_TYPES[n].udtName != udt {
        OtherUdtNamesAreNot(udt);
      }
    }
  }

  /** The stamp is the small-letter name of a stamped type, the SQL name before the internal one, and nothing else. */
  lemma StampsAre(dataType: string, udtName: string, sql: string, udt: string)
    requires IsLowerOf(sql, dataType) && IsLowerOf(udt, udtName)
    ensures AmbiguousPgType(dataType, udtName)
         == if sql == "uuid" || sql == "json" || sql == "jsonb" then Some(sql)
            else if udt == "uuid" || udt == "json" || udt == "jsonb" then Some(udt)
            else None
  {
    hide AsciiLower;
    LowerIsUnique(sql, dataType);
    LowerIsUnique(udt, udtName);
  }

  /** A field keeps its column's name and nullability. */
  lemma FieldsKeepTheirColumn(c: ColumnInfo)
    ensures FieldOf(c).Some? <==> PgTypeToArrow(c.dataType, c.udtName).Some?
    ensures FieldOf(c).Some? ==>
      var f := FieldOf(c).value;
      && f.name == c.column && f.nullable == c.nullable
      && Some(f.ty) == PgTypeToArrow(c.dataType, c.udtName) && f.pgType == AmbiguousPgType(c.dataType, c.udtName)
  {
  }
}
