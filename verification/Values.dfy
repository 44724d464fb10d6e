/** Values, rows, column types and three-valued logic, shared by both query engines. */
module Values {
  import opened Options

  /** `Other` is any value of a type no literal of the model has (dates, floats, bytes, ...). */
  datatype Value = Null | Boolean(b: bool) | Integer(i: int) | Text(s: string) | Other(tag: nat)

  datatype Tri = True | False | Unknown

  /** Three-valued logic (PostgreSQL documentation, section 9.1). */
  function And3(a: Tri, b: Tri): Tri {
    if a == False || b == False then False else if a == True && b == True then True else Unknown
  }

  function Not3(a: Tri): Tri {
    match a
    case True => False
    case False => True
    case Unknown => Unknown
  }

  function Or3(a: Tri, b: Tri): Tri {
    Not3(And3(Not3(a), Not3(b)))
  }

  function OfBool(b: bool): Tri {
    if b then True else False
  }

  /** A truth value as a value of SQL type boolean, and back. */
  function TriValue(t: Tri): Value {
    match t
    case True => Boolean(true)
    case False => Boolean(false)
    case Unknown => Null
  }

  function ValueTri(v: Value): Tri {
    if v.Boolean? then OfBool(v.b) else Unknown
  }

  type Row = map<string, Value>

  function Get(row: Row, column: string): Value {
    if column in row then row[column] else Null
  }

  /**
   How PostgreSQL compares a column. `TextLikeColumn` is a column that Arrow shows
   as text while PostgreSQL compares it by the rules of its own type: uuid, json,
   jsonb, and blank-padded character.
   */
  datatype ColumnType = BooleanColumn | IntegerColumn | TextColumn | TextLikeColumn | OtherColumn

  datatype Field = Field(name: string, ty: ColumnType)

  type Schema = seq<Field>

  predicate HasColumn(schema: Schema, name: string) {
    exists i | 0 <= i < |schema| :: schema[i].name == name
  }

  function TypeOf(schema: Schema, name: string): (r: Option<ColumnType>)
    ensures r.Some? <==> HasColumn(schema, name)
    ensures r.Some? ==> exists i | 0 <= i < |schema| :: schema[i] == Field(name, r.value)
  {
    if schema == [] then None
    else if schema[0].name == name then
      assert schema[0] == Field(name, schema[0].ty);
      Some(schema[0].ty)
    else
      var r := TypeOf(schema[1..], name);
      assert forall i | 0 < i < |schema| :: schema[i] == schema[1..][i - 1];
      assert forall i | 0 <= i < |schema| - 1 :: schema[1..][i] == schema[i + 1];
      r
  }

  predicate HasType(v: Value, ty: ColumnType) {
    || v.Null?
    || match ty
       case BooleanColumn => v.Boolean?
       case IntegerColumn => v.Integer?
       case TextColumn | TextLikeColumn => v.Text?
       case OtherColumn => v.Other?
  }

  /** Every column of the row holds NULL or a value of its column's type. */
  ghost predicate Conforms(row: Row, schema: Schema) {
    forall i | 0 <= i < |schema| :: HasType(Get(row, schema[i].name), schema[i].ty)
  }

  /** Every column of `visible` has the same type in `stored`, which may have more columns. */
  ghost predicate SameTypes(stored: Schema, visible: Schema) {
    forall c | HasColumn(visible, c) :: TypeOf(stored, c) == TypeOf(visible, c)
  }

  ghost predicate UniqueNames(schema: Schema) {
    forall i, j | 0 <= i < j < |schema| :: schema[i].name != schema[j].name
  }

  /** Byte order of UTF-8 text, which is the order of its characters. */
  predicate BytesLess(s: string, t: string) {
    if t == "" then false
    else if s == "" then true
    else s[0] < t[0] || (s[0] == t[0] && BytesLess(s[1..], t[1..]))
  }

  lemma {:induction false} BytesLessIsTotalOrder(a: string, b: string, c: string)
    ensures !(BytesLess(a, b) && BytesLess(b, a))
    ensures BytesLess(a, b) || BytesLess(b, a) || a == b
    ensures !BytesLess(b, a) && !BytesLess(c, b) ==> !BytesLess(c, a)
  {
    if a != "" && b != "" {
      BytesLessIsTotalOrder(a[1..], b[1..], if c == "" then "" else c[1..]);
      assert a == [a[0]] + a[1..] && b == [b[0]] + b[1..];
    }
  }

  ghost predicate TotalOrder(less: (string, string) -> bool) {
    && (forall a, b :: !(less(a, b) && less(b, a)))
    && (forall a, b :: less(a, b) || less(b, a) || a == b)
    && (forall a, b, c | less(a, b) && less(b, c) :: less(a, c))
  }

  lemma BytesLessIsTransitive(a: string, b: string, c: string)
    requires BytesLess(a, b) && BytesLess(b, c)
    ensures BytesLess(a, c)
  {
    BytesLessIsTotalOrder(a, b, c);
    BytesLessIsTotalOrder(b, c, a);
    BytesLessIsTotalOrder(a, c, b);
  }

  /** `s` is below `t` where they first differ, or ends there. */
  lemma {:induction false} BytesLessIsLexicographic(s: string, t: string)
    ensures BytesLess(s, t) <==> exists k :: 0 <= k <= |s| && k < |t| && s[..k] == t[..k] && (k < |s| ==> s[k] < t[k])
  {
    if t == "" {
    } else if s == "" {
      assert s[..0] == t[..0];
    } else {
      BytesLessIsLexicographic(s[1..], t[1..]);
      if s[0] < t[0] {
        assert s[..0] == t[..0];
      }
      if k :| 0 <= k <= |s| - 1 && k < |t| - 1 && s[1..][..k] == t[1..][..k] && (k < |s| - 1 ==> s[1..][k] < t[1..][k]) && s[0] == t[0] {
        assert s[..k + 1] == [s[0]] + s[1..][..k] && t[..k + 1] == [t[0]] + t[1..][..k];
      }
      if k :| 0 < k <= |s| && k < |t| && s[..k] == t[..k] && (k < |s| ==> s[k] < t[k]) {
        assert s[0] == s[..k][0] == t[..k][0] == t[0];
        assert s[1..][..k - 1] == s[..k][1..] == t[..k][1..] == t[1..][..k - 1];
      }
    }
  }
}
