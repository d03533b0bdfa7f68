/**
 JavaScript values as they reach the SQLite filter compiler: the filter operand
 (`IFilterValue`) and the parameters handed to the query builder. Numbers are
 restricted to the integers plus NaN; `Number(x)` and `String(x)` are modelled
 for exactly those values.
 */
module JsValues {

  /** A JavaScript number: an integer or NaN (fractions and infinities are not modelled). */
  datatype JsNumber = Int(value: int) | NaN

  datatype JsValue =
    | JsNull
    | JsBool(b: bool)
    | JsNum(n: JsNumber)
    | JsStr(s: string)
    | JsArray(items: seq<JsValue>)

  predicate IsDigit(c: char) {
    '0' <= c <= '9'
  }

  predicate AllDigits(s: string) {
    forall i :: 0 <= i < |s| ==> IsDigit(s[i])
  }

  function DigitChar(d: nat): (c: char)
    requires d < 10
    ensures IsDigit(c)
  {
    ('0' as int + d) as char
  }

  function DigitValue(c: char): (d: nat)
    requires IsDigit(c)
    ensures d < 10 && DigitChar(d) == c
  {
    c as int - '0' as int
  }

  /** Decimal digits of `n`, most significant first, without leading zeros. */
  function NatToDecimal(n: nat): (r: string)
    ensures |r| > 0 && AllDigits(r)
    ensures |r| > 1 ==> r[0] != '0'
  {
    if n < 10 then [DigitChar(n)] else NatToDecimal(n / 10) + [DigitChar(n % 10)]
  }

  /** `String(n)` for an integer `n`. */
  function IntToDecimal(n: int): (r: string)
    ensures |r| > 0 && IsDigit(r[|r| - 1])
    ensures IsDigit(r[0]) || r[0] == '-'
  {
    if n < 0 then "-" + NatToDecimal(-n) else NatToDecimal(n)
  }

  /** The value of a string of decimal digits. */
  function DigitsValue(s: string): nat
    requires AllDigits(s)
  {
    if |s| == 0 then 0 else DigitsValue(s[..|s| - 1]) * 10 + DigitValue(s[|s| - 1])
  }

  lemma {:induction false} DigitsValueOfDecimal(n: nat)
    ensures DigitsValue(NatToDecimal(n)) == n
  {
    if n >= 10 {
      var s := NatToDecimal(n);
      assert s[..|s| - 1] == NatToDecimal(n / 10);
      DigitsValueOfDecimal(n / 10);
    }
  }

  /** The characters `String.prototype.trim` removes: WhiteSpace and LineTerminator of ECMAScript. */
  predicate IsJsWhitespace(c: char) {
    var k := c as int;
    k == 0x09 || k == 0x0A || k == 0x0B || k == 0x0C || k == 0x0D || k == 0x20 ||
    k == 0xA0 || k == 0x1680 || (0x2000 <= k <= 0x200A) || k == 0x2028 || k == 0x2029 ||
    k == 0x202F || k == 0x205F || k == 0x3000 || k == 0xFEFF
  }

  function TrimStart(s: string): (r: string)
    ensures |r| <= |s| && r == s[|s| - |r|..]
    ensures |r| > 0 ==> !IsJsWhitespace(r[0])
    ensures forall i :: 0 <= i < |s| - |r| ==> IsJsWhitespace(s[i])
  {
    if |s| > 0 && IsJsWhitespace(s[0]) then TrimStart(s[1..]) else s
  }

  function TrimEnd(s: string): (r: string)
    ensures |r| <= |s| && r == s[..|r|]
    ensures |r| > 0 ==> !IsJsWhitespace(r[|r| - 1])
    ensures forall i :: |r| <= i < |s| ==> IsJsWhitespace(s[i])
  {
    if |s| > 0 && IsJsWhitespace(s[|s| - 1]) then TrimEnd(s[..|s| - 1]) else s
  }

  function Trim(s: string): string {
    TrimEnd(TrimStart(s))
  }

  /** A trimmed, non-empty string read as an optionally signed decimal integer; anything else is NaN. */
  function ParseInteger(t: string): (r: JsNumber)
    ensures r.Int? ==> |t| > 0
  {
    if |t| > 0 && (t[0] == '-' || t[0] == '+') then
      var d := t[1..];
      if |d| > 0 && AllDigits(d) then Int(if t[0] == '-' then -(DigitsValue(d) as int) else DigitsValue(d))
      else NaN
    else if |t| > 0 && AllDigits(t) then Int(DigitsValue(t))
    else NaN
  }

  /** `Number(s)` for a string: surrounding whitespace is ignored and the empty string is 0. */
  function StringToNumber(s: string): JsNumber {
    var t := Trim(s);
    if t == "" then Int(0) else ParseInteger(t)
  }

  function NumberToString(n: JsNumber): string {
    match n
    case Int(i) => IntToDecimal(i)
    case NaN => "NaN"
  }

  function Join(parts: seq<string>, sep: string): string {
    if |parts| == 0 then ""
    else if |parts| == 1 then parts[0]
    else parts[0] + sep + Join(parts[1..], sep)
  }

  /** `String(v)`, the conversion a template literal applies; array elements that are null print as "". */
  function ToJsString(v: JsValue): string {
    match v
    case JsNull => "null"
    case JsBool(b) => if b then "true" else "false"
    case JsNum(n) => NumberToString(n)
    case JsStr(s) => s
    case JsArray(items) =>
      Join(seq(|items|, i requires 0 <= i < |items| =>
        if items[i].JsNull? then "" else ToJsString(items[i])), ",")
  }

  /** `Number(v)`: objects (arrays) go through their string form. */
  function ToNumber(v: JsValue): JsNumber {
    match v
    case JsNull => Int(0)
    case JsBool(b) => Int(if b then 1 else 0)
    case JsNum(n) => n
    case JsStr(s) => StringToNumber(s)
    case JsArray(_) => StringToNumber(ToJsString(v))
  }

  lemma TrimDecimal(n: int)
    ensures Trim(IntToDecimal(n)) == IntToDecimal(n)
  {
    var s := IntToDecimal(n);
    assert !IsJsWhitespace(s[0]);
    assert TrimStart(s) == s;
    assert !IsJsWhitespace(s[|s| - 1]);
    assert TrimEnd(s) == s;
  }

  /** Reading back the decimal rendering of an integer gives the integer: `Number(String(n)) == n`. */
  lemma {:induction false} DecimalRoundTrip(n: int)
    ensures StringToNumber(IntToDecimal(n)) == Int(n)
    ensures ToNumber(JsStr(ToJsString(JsNum(Int(n))))) == Int(n)
  {
    TrimDecimal(n);
    var s := IntToDecimal(n);
    if n < 0 {
      assert s[1..] == NatToDecimal(-n);
      DigitsValueOfDecimal(-n);
    } else {
      DigitsValueOfDecimal(n);
    }
  }
}
