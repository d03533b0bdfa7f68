/**
 The SQLite dialect of the cell-value filter: the three operator handlers it
 overrides (`isNot`, `doesNotContain`, `isNoneOf`), the qualified column name
 and the JSON expression a filter reads for JSON-valued fields.
 */
module CellValueFilterSqlite {
  import opened Results
  import opened JsValues
  import opened SqlText
  import opened QueryBuilder
  import opened FilterTypes

  // ---------------------------------------------------------------------------
  // Operator handlers
  // ---------------------------------------------------------------------------

  /** The value `isNot` binds: `Number(value)` on a Number field, the operand itself otherwise. */
  function IsNotParam(field: FieldDescriptor, value: JsValue): JsValue {
    if field.cellValueType == NumberValue then JsNum(ToNumber(value)) else value
  }

  function IsNotSql(column: string): string {
    IfNullEmpty(column) + " != ?"
  }

  function NotLikeSql(column: string): string {
    IfNullEmpty(column) + " not like ?"
  }

  function NotInSql(column: string, n: nat): string {
    IfNullEmpty(column) + " not in (" + Placeholders(n) + ")"
  }

  /** The pattern `doesNotContain` binds: the operand's string form between two `%`, unescaped. */
  function WildcardPattern(value: JsValue): string {
    "%" + ToJsString(value) + "%"
  }

  /** `isNot`: a NULL-safe inequality against one bound, type-coerced value. */
  function IsNotOperatorHandler(qb: Builder, params: FilterParams): (r: Builder)
    ensures |r.clauses| == |qb.clauses| + 1 && r.clauses[..|qb.clauses|] == qb.clauses
    ensures Last(r).sql == "ifnull(" + params.field.dbFieldName + ", '') != ?"
    ensures |Last(r).params| == 1
    ensures params.field.cellValueType == NumberValue ==>
      Last(r).params[0] == JsNum(ToNumber(params.value))
    ensures params.field.cellValueType != NumberValue ==> Last(r).params[0] == params.value
  {
    WhereRaw(qb, IsNotSql(params.field.dbFieldName), [IsNotParam(params.field, params.value)])
  }

  /** `doesNotContain`: a NULL-safe `not like` against the operand wrapped in `%`. */
  function DoesNotContainOperatorHandler(qb: Builder, params: FilterParams): (r: Builder)
    ensures |r.clauses| == |qb.clauses| + 1 && r.clauses[..|qb.clauses|] == qb.clauses
    ensures Last(r).sql == "ifnull(" + params.field.dbFieldName + ", '') not like ?"
    ensures Last(r).params == [JsStr("%" + ToJsString(params.value) + "%")]
    ensures params.value.JsStr? ==> Last(r).params == [JsStr("%" + params.value.s + "%")]
  {
    WhereRaw(qb, NotLikeSql(params.field.dbFieldName), [JsStr(WildcardPattern(params.value))])
  }

  /**
   The effect of a handler that may throw: the state of the caller's builder
   afterwards, and the error thrown, if any.
   */
  datatype HandlerOutcome = HandlerOutcome(builder: Builder, thrown: Option<ValidationError>)

  /** `isNoneOf`: validate the operand as a literal list, then a NULL-safe `not in` over it. */
  function IsNoneOfOperatorHandler(qb: Builder, params: FilterParams): (r: HandlerOutcome)
    ensures r.thrown.Some? <==> ParseLiteralList(params.value).Failure?
    ensures r.thrown.Some? ==>
      r.builder == qb && r.thrown.value == ParseLiteralList(params.value).error
    ensures r.thrown.None? ==>
      && params.value.JsArray?
      && |r.builder.clauses| == |qb.clauses| + 1
      && r.builder.clauses[..|qb.clauses|] == qb.clauses
      && Last(r.builder).sql ==
           "ifnull(" + params.field.dbFieldName + ", '') not in (" +
           Placeholders(|params.value.items|) + ")"
      && Last(r.builder).params == params.value.items
  {
    match ParseLiteralList(params.value)
    case Failure(e) => HandlerOutcome(qb, Some(e))
    case Success(valueList) =>
      HandlerOutcome(WhereRaw(qb, NotInSql(params.field.dbFieldName, |valueList|), valueList), None)
  }

  /** A numeric string given to `isNot` on a Number field is bound as that number, not as text. */
  lemma IsNotBindsNumbers(qb: Builder, params: FilterParams, n: int)
    requires params.field.cellValueType == NumberValue
    requires params.value == JsStr(IntToDecimal(n)) || params.value == JsNum(Int(n))
    ensures Last(IsNotOperatorHandler(qb, params)).params == [JsNum(Int(n))]
  {
    DecimalRoundTrip(n);
  }

  /** `isNoneOf` on an empty list throws and adds nothing. */
  lemma IsNoneOfRejectsEmptyList(qb: Builder, field: FieldDescriptor, op: FilterOperator)
    ensures IsNoneOfOperatorHandler(qb, FilterParams(field, op, JsArray([]))) ==
      HandlerOutcome(qb, Some(EmptyArray))
  {
  }

  lemma IsNotSqlPlaceholders(column: string)
    requires '?' !in column
    ensures CountChar('?', IsNotSql(column)) == 1
  {
    IfNullEmptyHasNoPlaceholder(column);
    CountCharAppend('?', IfNullEmpty(column), " != ?");
  }

  lemma NotLikeSqlPlaceholders(column: string)
    requires '?' !in column
    ensures CountChar('?', NotLikeSql(column)) == 1
  {
    IfNullEmptyHasNoPlaceholder(column);
    CountCharAppend('?', IfNullEmpty(column), " not like ?");
  }

  lemma NotInSqlPlaceholders(column: string, n: nat)
    requires '?' !in column
    ensures CountChar('?', NotInSql(column, n)) == n
  {
    var head := IfNullEmpty(column) + " not in (";
    IfNullEmptyHasNoPlaceholder(column);
    CountCharAppend('?', IfNullEmpty(column), " not in (");
    CountCharAppend('?', head, Placeholders(n));
    CountCharAppend('?', head + Placeholders(n), ")");
  }

  /**
   Every handler keeps the builder balanced (one `?` per bound parameter in
   every fragment), provided the column name itself holds no `?`.
   */
  lemma HandlersKeepBalance(qb: Builder, params: FilterParams)
    requires AllBalanced(qb)
    requires '?' !in params.field.dbFieldName
    ensures AllBalanced(IsNotOperatorHandler(qb, params))
    ensures AllBalanced(DoesNotContainOperatorHandler(qb, params))
    ensures AllBalanced(IsNoneOfOperatorHandler(qb, params).builder)
  {
    var column := params.field.dbFieldName;
    IsNotSqlPlaceholders(column);
    WhereRawKeepsBalance(qb, IsNotSql(column), [IsNotParam(params.field, params.value)]);
    NotLikeSqlPlaceholders(column);
    WhereRawKeepsBalance(qb, NotLikeSql(column), [JsStr(WildcardPattern(params.value))]);
    var parsed := ParseLiteralList(params.value);
    if parsed.Success? {
      NotInSqlPlaceholders(column, |parsed.value|);
      WhereRawKeepsBalance(qb, NotInSql(column, |parsed.value|), parsed.value);
    }
  }

  /**
   The SQL text a handler emits depends on the column (and, for `isNoneOf`, on
   the list length) only: operand values reach the query as bound parameters.
   */
  lemma SqlTextIndependentOfOperand(qb: Builder, field: FieldDescriptor, op: FilterOperator, a: JsValue, b: JsValue)
    ensures Last(IsNotOperatorHandler(qb, FilterParams(field, op, a))).sql ==
            Last(IsNotOperatorHandler(qb, FilterParams(field, op, b))).sql
    ensures Last(DoesNotContainOperatorHandler(qb, FilterParams(field, op, a))).sql ==
            Last(DoesNotContainOperatorHandler(qb, FilterParams(field, op, b))).sql
    ensures a.JsArray? && b.JsArray? && |a.items| == |b.items| &&
            IsNoneOfOperatorHandler(qb, FilterParams(field, op, a)).thrown.None? &&
            IsNoneOfOperatorHandler(qb, FilterParams(field, op, b)).thrown.None? ==>
            Last(IsNoneOfOperatorHandler(qb, FilterParams(field, op, a)).builder).sql ==
            Last(IsNoneOfOperatorHandler(qb, FilterParams(field, op, b)).builder).sql
  {
  }

  // ---------------------------------------------------------------------------
  // Column references
  // ---------------------------------------------------------------------------

  /**
   `<table>.<dbFieldName>`: the column qualified by the filter's table alias.
   For a column name without a dot the qualification can be undone.
   */
  function TableDbFieldName(table: string, field: FieldDescriptor): (r: string)
    ensures '.' !in field.dbFieldName ==> SplitQualified(r) == Some((table, field.dbFieldName))
  {
    QualifiedNameSplits(table, field.dbFieldName);
    table + "." + field.dbFieldName
  }

  /** The position of the last `.` in `s`, or -1. */
  function LastDot(s: string): (k: int)
    ensures -1 <= k < |s|
    ensures k >= 0 ==> s[k] == '.'
    ensures forall j :: k < j < |s| ==> s[j] != '.'
  {
    if |s| == 0 then -1
    else if s[|s| - 1] == '.' then |s| - 1
    else LastDot(s[..|s| - 1])
  }

  /** Splits a qualified name at its last `.` into qualifier and column. */
  function SplitQualified(s: string): Option<(string, string)> {
    var k := LastDot(s);
    if k < 0 then None else Some((s[..k], s[k + 1..]))
  }

  /** A qualified name splits back into the qualifier and a dot-free column name. */
  lemma QualifiedNameSplits(table: string, name: string)
    ensures '.' !in name ==> SplitQualified(table + "." + name) == Some((table, name))
  {
    if '.' !in name {
      var s := table + "." + name;
      var k := LastDot(s);
      assert s[|table|] == '.';
      forall j | |table| < j < |s|
        ensures s[j] != '.'
      {
        assert s[j] == name[j - |table| - 1];
      }
      assert k == |table|;
      assert s[..k] == table;
      assert s[k + 1..] == name;
    }
  }

  /** The reference to the current element of the unnested JSON row view. */
  const DefaultJsonColumn: string := "json_each.value"

  /** The JSON document a path is extracted from. */
  datatype JsonObject = EachValueRow | OwnColumn(name: string)

  datatype JsonPath = TitlePath | IdPath

  /** The expression a JSON-aware filter reads: the bare row-view value, or an extraction. */
  datatype JsonColumn = EachValue | JsonExtract(obj: JsonObject, path: JsonPath)

  function ObjectText(o: JsonObject): string {
    match o
    case EachValueRow => DefaultJsonColumn
    case OwnColumn(name) => name
  }

  function PathText(p: JsonPath): string {
    match p
    case TitlePath => "$.title"
    case IdPath => "$.id"
  }

  function ColumnText(c: JsonColumn): string {
    match c
    case EachValue => DefaultJsonColumn
    case JsonExtract(o, p) => "json_extract(" + ObjectText(o) + ", '" + PathText(p) + "')"
  }

  /** The choice the dialect makes for a field kind and an operator, stated by its properties. */
  function ResolveJsonColumn(field: FieldDescriptor, op: FilterOperator): (c: JsonColumn)
    ensures c.JsonExtract? <==> field.fieldType == Link || field.fieldType == User
    ensures c.JsonExtract? ==> (c.obj == EachValueRow <==> field.isMultipleCellValue)
    ensures c.JsonExtract? && c.obj.OwnColumn? ==> c.obj.name == field.dbFieldName
    ensures c.JsonExtract? ==>
      (c.path == TitlePath <==> field.fieldType == Link && (op == Contains || op == DoesNotContain))
  {
    if field.fieldType == Link || field.fieldType == User then
      var obj := if field.isMultipleCellValue then EachValueRow else OwnColumn(field.dbFieldName);
      var path := if field.fieldType == Link && op in {Contains, DoesNotContain} then TitlePath else IdPath;
      JsonExtract(obj, path)
    else
      EachValue
  }

  /** `getJsonQueryColumn`: the JSON expression as SQL text. */
  function GetJsonQueryColumn(field: FieldDescriptor, op: FilterOperator): (r: string)
    ensures r == ColumnText(ResolveJsonColumn(field, op))
  {
    var defaultJsonColumn := "json_each.value";
    if field.fieldType == Link then
      var obj := if field.isMultipleCellValue then defaultJsonColumn else field.dbFieldName;
      var path := if op in {Contains, DoesNotContain} then "$.title" else "$.id";
      "json_extract(" + obj + ", '" + path + "')"
    else if field.fieldType == User then
      var obj := if field.isMultipleCellValue then defaultJsonColumn else field.dbFieldName;
      var path := "$.id";
      "json_extract(" + obj + ", '" + path + "')"
    else if field.fieldType == Attachment then
      defaultJsonColumn
    else
      defaultJsonColumn
  }

  const ExtractPrefix: string := "json_extract("
  const TitleSuffix: string := ", '$.title')"
  const IdSuffix: string := ", '$.id')"

  function ParseObject(t: string): JsonObject {
    if t == DefaultJsonColumn then EachValueRow else OwnColumn(t)
  }

  /** Reads a JSON column expression back into the choice it encodes. */
  function ParseJsonColumn(s: string): Option<JsonColumn> {
    if s == DefaultJsonColumn then Some(EachValue)
    else if |s| >= |ExtractPrefix| + |TitleSuffix| && s[..|ExtractPrefix|] == ExtractPrefix
         && s[|s| - |TitleSuffix|..] == TitleSuffix then
      Some(JsonExtract(ParseObject(s[|ExtractPrefix|..|s| - |TitleSuffix|]), TitlePath))
    else if |s| >= |ExtractPrefix| + |IdSuffix| && s[..|ExtractPrefix|] == ExtractPrefix
         && s[|s| - |IdSuffix|..] == IdSuffix then
      Some(JsonExtract(ParseObject(s[|ExtractPrefix|..|s| - |IdSuffix|]), IdPath))
    else None
  }

  /** A rendered JSON column reads back as itself, unless a column is literally named like the row view. */
  lemma JsonColumnRoundTrip(c: JsonColumn)
    requires c.JsonExtract? && c.obj.OwnColumn? ==> c.obj.name != DefaultJsonColumn
    ensures ParseJsonColumn(ColumnText(c)) == Some(c)
  {
    if c.JsonExtract? {
      var o := ObjectText(c.obj);
      var s := ColumnText(c);
      assert s[6] == 'x' && DefaultJsonColumn[6] == 'a';
      assert s[..|ExtractPrefix|] == ExtractPrefix;
      if c.path == TitlePath {
        assert s[|s| - |TitleSuffix|..] == TitleSuffix;
        assert s[|ExtractPrefix|..|s| - |TitleSuffix|] == o;
      } else {
        assert s[|s| - 3] == 'd' && TitleSuffix[|TitleSuffix| - 3] == 'e';
        assert s[|s| - |IdSuffix|..] == IdSuffix;
        assert s[|ExtractPrefix|..|s| - |IdSuffix|] == o;
      }
    }
  }

  /**
   The expression `getJsonQueryColumn` emits determines which document it reads
   and which path it extracts.
   */
  lemma GetJsonQueryColumnDecodes(field: FieldDescriptor, op: FilterOperator)
    requires field.dbFieldName != DefaultJsonColumn
    ensures ParseJsonColumn(GetJsonQueryColumn(field, op)) == Some(ResolveJsonColumn(field, op))
  {
    JsonColumnRoundTrip(ResolveJsonColumn(field, op));
  }
}
