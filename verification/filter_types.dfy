/**
 What the compiler reads: the field descriptor, the operator tag and the
 operand, and the validation of literal-value lists that `isNoneOf` applies
 before emitting anything.
 */
module FilterTypes {
  import opened Results
  import opened JsValues

  /** The declared value type of a field's cells. */
  datatype CellValueType = StringValue | NumberValue | BooleanValue | DateTimeValue

  /** The field kind; the SQLite dialect singles out Link, User and Attachment. */
  datatype FieldType =
    | SingleLineText | LongText | User | Attachment | Checkbox | MultipleSelect
    | SingleSelect | Date | Number | Duration | Rating | Formula | Rollup | Count
    | Link | CreatedTime | LastModifiedTime | CreatedBy | LastModifiedBy | AutoNumber

  /** The parts of a field instance the compiler reads. */
  datatype FieldDescriptor = FieldDescriptor(
    dbFieldName: string,
    cellValueType: CellValueType,
    fieldType: FieldType,
    isMultipleCellValue: bool)

  datatype FilterOperator =
    | Is | IsNot | Contains | DoesNotContain | IsGreater | IsGreaterEqual | IsLess
    | IsLessEqual | IsEmpty | IsNotEmpty | IsAnyOf | IsNoneOf | HasAnyOf | HasAllOf
    | HasNoneOf | IsExactly | IsWithIn

  /** The `{ field, operator, value }` argument every operator handler receives. */
  datatype FilterParams = FilterParams(field: FieldDescriptor, operator: FilterOperator, value: JsValue)

  /** A literal value: a string, a boolean, or a number that is not NaN. */
  predicate IsLiteral(v: JsValue) {
    v.JsStr? || v.JsBool? || (v.JsNum? && v.n.Int?)
  }

  /** Why an operand is not a literal-value list. */
  datatype ValidationError = ExpectedArray | EmptyArray | InvalidLiteral(index: nat)

  /** The first position at or after `from` that holds a non-literal, or `|items|`. */
  function FirstNonLiteral(items: seq<JsValue>, from: nat): (k: nat)
    requires from <= |items|
    ensures from <= k <= |items|
    ensures forall j :: from <= j < k ==> IsLiteral(items[j])
    ensures k < |items| ==> !IsLiteral(items[k])
    decreases |items| - from
  {
    if from == |items| then from
    else if IsLiteral(items[from]) then FirstNonLiteral(items, from + 1)
    else from
  }

  /**
   Validation of an operand as a non-empty list of literal values. The schema
   itself is not part of this model; it is assumed to accept exactly the
   non-empty arrays of strings, booleans and (non-NaN) numbers.
   */
  function ParseLiteralList(v: JsValue): (r: Result<seq<JsValue>, ValidationError>)
    ensures r.Success? <==>
      v.JsArray? && |v.items| > 0 && forall i :: 0 <= i < |v.items| ==> IsLiteral(v.items[i])
    ensures r.Success? ==> r.value == v.items
    ensures r == Failure(ExpectedArray) <==> !v.JsArray?
    ensures r == Failure(EmptyArray) <==> v == JsArray([])
    ensures r.Failure? && r.error.InvalidLiteral? ==>
      v.JsArray? && r.error.index < |v.items| && !IsLiteral(v.items[r.error.index]) &&
      forall j :: 0 <= j < r.error.index ==> IsLiteral(v.items[j])
  {
    if !v.JsArray? then Failure(ExpectedArray)
    else if |v.items| == 0 then Failure(EmptyArray)
    else
      var k := FirstNonLiteral(v.items, 0);
      if k < |v.items| then Failure(InvalidLiteral(k)) else Success(v.items)
  }
}
