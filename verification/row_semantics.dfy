/**
 A single-row evaluator for the fragments the SQLite dialect emits, using
 SQLite's three-valued logic. It fixes what a compiled filter means: which
 cell values a row may hold in the filtered column for the row to be selected.
 */
module RowSemantics {
  import opened Results
  import opened JsValues
  import opened SqlText
  import opened QueryBuilder
  import opened FilterTypes
  import opened LikeMatching
  import opened CellValueFilterSqlite

  /** A stored SQLite value (REAL and BLOB are not modelled). */
  datatype SqlValue = SqlNull | SqlInteger(i: int) | SqlStr(t: string)

  datatype SqlBool = SqlTrue | SqlFalse | SqlUnknown

  /**
   What SQLite stores for a bound JavaScript value. SQLite stores NaN as NULL.
   Booleans and arrays depend on the driver and are not modelled.
   */
  function Bind(v: JsValue): Option<SqlValue> {
    match v
    case JsNull => Some(SqlNull)
    case JsStr(s) => Some(SqlStr(s))
    case JsNum(Int(n)) => Some(SqlInteger(n))
    case JsNum(NaN) => Some(SqlNull)
    case _ => None
  }

  function BindAll(vs: seq<JsValue>): (r: Option<seq<SqlValue>>)
    ensures r.Some? <==> forall i :: 0 <= i < |vs| ==> Bind(vs[i]).Some?
    ensures r.Some? ==> |r.value| == |vs| && forall i :: 0 <= i < |vs| ==> Some(r.value[i]) == Bind(vs[i])
  {
    if |vs| == 0 then Some([])
    else
      match (BindAll(vs[..|vs| - 1]), Bind(vs[|vs| - 1]))
      case (Some(init), Some(last)) => Some(init + [last])
      case _ => None
  }

  /** `ifnull(x, '')`. */
  function IfNull(x: SqlValue): (r: SqlValue)
    ensures !r.SqlNull?
  {
    if x.SqlNull? then SqlStr("") else x
  }

  /** The text form SQLite gives a value before `LIKE`. */
  function TextOf(x: SqlValue): string
    requires !x.SqlNull?
  {
    match x
    case SqlInteger(n) => IntToDecimal(n)
    case SqlStr(t) => t
  }

  /** `a != b` between expressions without affinity: an integer never equals a text. */
  function NotEqual(a: SqlValue, b: SqlValue): SqlBool {
    if a.SqlNull? || b.SqlNull? then SqlUnknown
    else if a == b then SqlFalse
    else SqlTrue
  }

  /** `a not like p`. */
  function NotLike(a: SqlValue, p: SqlValue): SqlBool {
    if a.SqlNull? || p.SqlNull? then SqlUnknown
    else if Like(TextOf(p), TextOf(a)) then SqlFalse
    else SqlTrue
  }

  /** `a not in (list)`. */
  function NotIn(a: SqlValue, list: seq<SqlValue>): SqlBool {
    if a.SqlNull? then SqlUnknown
    else if a in list then SqlFalse
    else if SqlNull in list then SqlUnknown
    else SqlTrue
  }

  /**
   The truth value of fragment `cl` for a row whose cell in `column` is `cell`;
   None for text this evaluator does not recognise or a parameter it cannot bind.
   */
  function EvalClause(cl: Clause, column: string, cell: SqlValue): Option<SqlBool> {
    if cl.sql == IsNotSql(column) && |cl.params| == 1 then
      match Bind(cl.params[0])
      case Some(p) => Some(NotEqual(IfNull(cell), p))
      case None => None
    else if cl.sql == NotLikeSql(column) && |cl.params| == 1 then
      match Bind(cl.params[0])
      case Some(p) => Some(NotLike(IfNull(cell), p))
      case None => None
    else if cl.sql == NotInSql(column, |cl.params|) then
      match BindAll(cl.params)
      case Some(ps) => Some(NotIn(IfNull(cell), ps))
      case None => None
    else None
  }

  /** The three fragment shapes never coincide, so each clause is read the way it was written. */
  lemma ShapesDistinct(column: string, n: nat)
    ensures IsNotSql(column) != NotLikeSql(column)
    ensures NotInSql(column, n) != IsNotSql(column)
    ensures NotInSql(column, n) != NotLikeSql(column)
  {
    var k := |IfNullEmpty(column)|;
    if |NotInSql(column, n)| == |NotLikeSql(column)| {
      assert NotInSql(column, n)[k + 5] == 'i';
      assert NotLikeSql(column)[k + 5] == 'l';
    }
  }

  /** NULL and the empty string are indistinguishable to every emitted fragment. */
  lemma NullActsAsEmptyString(cl: Clause, column: string)
    ensures EvalClause(cl, column, SqlNull) == EvalClause(cl, column, SqlStr(""))
  {
  }

  /** `isNot v` on a non-Number field selects exactly the rows whose coalesced cell is not the text `v`. */
  lemma IsNotOnTextField(qb: Builder, params: FilterParams, v: string, cell: SqlValue)
    requires params.field.cellValueType != NumberValue
    requires params.value == JsStr(v)
    ensures EvalClause(Last(IsNotOperatorHandler(qb, params)), params.field.dbFieldName, cell) ==
      Some(if IfNull(cell) == SqlStr(v) then SqlFalse else SqlTrue)
    ensures EvalClause(Last(IsNotOperatorHandler(qb, params)), params.field.dbFieldName, SqlNull) ==
      Some(if v == "" then SqlFalse else SqlTrue)
  {
  }

  /**
   `isNot` on a Number field whose operand reads as the integer `n`: a row is
   selected exactly when its coalesced cell is not the integer `n`; a NULL cell
   coalesces to text and is always selected.
   */
  lemma IsNotOnNumberField(qb: Builder, params: FilterParams, n: int, cell: SqlValue)
    requires params.field.cellValueType == NumberValue
    requires ToNumber(params.value) == Int(n)
    ensures EvalClause(Last(IsNotOperatorHandler(qb, params)), params.field.dbFieldName, cell) ==
      Some(if IfNull(cell) == SqlInteger(n) then SqlFalse else SqlTrue)
    ensures EvalClause(Last(IsNotOperatorHandler(qb, params)), params.field.dbFieldName, SqlNull) ==
      Some(SqlTrue)
  {
  }

  /** `isNot` on a Number field whose operand is not a number binds NULL, and no row is selected. */
  lemma IsNotNaNSelectsNoRow(qb: Builder, params: FilterParams, cell: SqlValue)
    requires params.field.cellValueType == NumberValue
    requires ToNumber(params.value) == NaN
    ensures EvalClause(Last(IsNotOperatorHandler(qb, params)), params.field.dbFieldName, cell) ==
      Some(SqlUnknown)
  {
  }

  /**
   `doesNotContain v` and a NULL cell: the row is selected exactly when `v`
   has a character other than `%` (so for every non-empty wildcard-free `v`).
   */
  lemma DoesNotContainOnNullCell(qb: Builder, params: FilterParams, v: string)
    requires params.value == JsStr(v)
    ensures EvalClause(Last(DoesNotContainOperatorHandler(qb, params)), params.field.dbFieldName, SqlNull) ==
      Some(if forall i :: 0 <= i < |v| ==> v[i] == '%' then SqlFalse else SqlTrue)
  {
    var column := params.field.dbFieldName;
    ShapesDistinct(column, 1);
    var p := "%" + v + "%";
    LikeEmptyText(p);
    if forall i :: 0 <= i < |v| ==> v[i] == '%' {
      forall i | 0 <= i < |p| ensures p[i] == '%' {
        if 0 < i < |p| - 1 { assert p[i] == v[i - 1]; }
      }
    } else {
      var i :| 0 <= i < |v| && v[i] != '%';
      assert p[i + 1] == v[i];
    }
  }

  /**
   For an operand without `%` or `_`, `doesNotContain v` selects exactly the
   rows whose coalesced cell text does not contain `v`, ASCII case ignored.
   */
  lemma DoesNotContainIsSubstringTest(qb: Builder, params: FilterParams, v: string, cell: SqlValue)
    requires params.value == JsStr(v)
    requires NoWildcards(v)
    ensures EvalClause(Last(DoesNotContainOperatorHandler(qb, params)), params.field.dbFieldName, cell) ==
      Some(if ContainsFolded(TextOf(IfNull(cell)), v) then SqlFalse else SqlTrue)
  {
    ShapesDistinct(params.field.dbFieldName, 1);
    WildcardWrapIsSubstring(v, TextOf(IfNull(cell)));
  }

  /**
   Wildcards in the operand are not escaped: for every string operand holding
   `%` or `_` there is a row whose cell does not contain the operand and which
   `doesNotContain` nevertheless rejects.
   */
  lemma DoesNotContainOverMatches(qb: Builder, params: FilterParams, v: string)
    requires params.value == JsStr(v)
    requires !NoWildcards(v)
    ensures !ContainsFolded(WildcardWitness(v), v)
    ensures EvalClause(Last(DoesNotContainOperatorHandler(qb, params)), params.field.dbFieldName,
                       SqlStr(WildcardWitness(v))) == Some(SqlFalse)
  {
    ShapesDistinct(params.field.dbFieldName, 1);
    WildcardOperandOverMatches(v);
  }

  /** An operand made only of `%` (the empty one included) rejects every row. */
  lemma DoesNotContainPercentRejectsAll(qb: Builder, params: FilterParams, v: string, cell: SqlValue)
    requires params.value == JsStr(v)
    requires forall i :: 0 <= i < |v| ==> v[i] == '%'
    ensures EvalClause(Last(DoesNotContainOperatorHandler(qb, params)), params.field.dbFieldName, cell) ==
      Some(SqlFalse)
  {
    ShapesDistinct(params.field.dbFieldName, 1);
    var p := "%" + v + "%";
    forall i | 0 <= i < |p| ensures p[i] == '%' {
      if 0 < i < |p| - 1 { assert p[i] == v[i - 1]; }
    }
    AllPercentMatches(p, TextOf(IfNull(cell)));
  }

  /** The concrete case: `doesNotContain "a_c"` rejects the row "abc". */
  lemma DoesNotContainOverMatchesExample(qb: Builder, field: FieldDescriptor, op: FilterOperator)
    ensures !ContainsFolded("abc", "a_c")
    ensures EvalClause(Last(DoesNotContainOperatorHandler(qb, FilterParams(field, op, JsStr("a_c")))),
                       field.dbFieldName, SqlStr("abc")) == Some(SqlFalse)
  {
    ShapesDistinct(field.dbFieldName, 1);
    assert !OccursAt("abc", "a_c", 0) by {
      assert "abc"[0..3] == "abc";
      assert !SameFolded("a_c"[1], "abc"[1]);
    }
    assert "%" + "a_c" + "%" == "%a_c%";
    assert Like("%a_c%", "abc") by {
      assert Like("%", "");
      assert Like("c%", "c");
      assert Like("_c%", "bc");
      assert Like("a_c%", "abc");
    }
  }

  /**
   `isNoneOf` over a validated list of strings and numbers: a row is selected
   exactly when its coalesced cell equals none of the bound values. In
   particular a NULL cell is selected exactly when "" is not in the list.
   */
  lemma IsNoneOfSelects(qb: Builder, params: FilterParams, cell: SqlValue)
    requires IsNoneOfOperatorHandler(qb, params).thrown.None?
    requires forall i :: 0 <= i < |params.value.items| ==> !params.value.items[i].JsBool?
    ensures params.value.JsArray?
    ensures EvalClause(Last(IsNoneOfOperatorHandler(qb, params).builder), params.field.dbFieldName, cell) ==
      Some(if exists i :: 0 <= i < |params.value.items| && Bind(params.value.items[i]) == Some(IfNull(cell))
           then SqlFalse else SqlTrue)
    ensures EvalClause(Last(IsNoneOfOperatorHandler(qb, params).builder), params.field.dbFieldName, SqlNull) ==
      Some(if JsStr("") in params.value.items then SqlFalse else SqlTrue)
  {
    var items := params.value.items;
    var column := params.field.dbFieldName;
    ShapesDistinct(column, |items|);
    var cl := Last(IsNoneOfOperatorHandler(qb, params).builder);
    assert cl.params == items;
    var bound := BindAll(items);
    assert bound.Some?;
    var ps := bound.value;
    assert SqlNull !in ps by {
      forall i | 0 <= i < |ps| ensures ps[i] != SqlNull {
        assert IsLiteral(items[i]);
      }
    }
    assert IfNull(cell) in ps <==>
           exists i :: 0 <= i < |items| && Bind(items[i]) == Some(IfNull(cell)) by {
      if IfNull(cell) in ps {
        var i :| 0 <= i < |ps| && ps[i] == IfNull(cell);
        assert Bind(items[i]) == Some(IfNull(cell));
      }
    }
    assert SqlStr("") in ps <==> JsStr("") in items by {
      if JsStr("") in items {
        var i :| 0 <= i < |items| && items[i] == JsStr("");
        assert ps[i] == SqlStr("");
      }
      if SqlStr("") in ps {
        var i :| 0 <= i < |ps| && ps[i] == SqlStr("");
        assert items[i] == JsStr("");
      }
    }
  }
}
