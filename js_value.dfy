/**
 * The JavaScript values a parsed JSON request body can hold, and the parts of
 * JavaScript's semantics that the bookmark validator relies on: truthiness,
 * `Number.isInteger`, the coercion to number that `<` and `>` apply, and the
 * decimal text of a non-negative integer.
 */
module JsValue {

  /** A JSON value, plus `Undefined`: what `requestBody[key]` yields for a key
      the body does not have. JSON numbers are kept as exact reals (JSON has
      no NaN and no Infinity). */
  datatype Value =
    | Undefined
    | Null
    | Bool(b: bool)
    | Num(n: real)
    | Str(s: string)
    | Arr(items: seq<Value>)
    | Obj(members: map<string, Value>)

  /** A request body as the JSON body parser hands it over: an object. */
  type Body = map<string, Value>

  /** `requestBody[key]` */
  function Get(body: Body, key: string): Value
  {
    if key in body then body[key] else Undefined
  }

  /** JavaScript's ToBoolean: `undefined`, `null`, `false`, `0` and `""` are
      falsy; every other value, every array and every object included, is truthy. */
  predicate Truthy(v: Value)
  {
    match v
    case Undefined => false
    case Null => false
    case Bool(b) => b
    case Num(n) => n != 0.0
    case Str(s) => s != ""
    case Arr(_) => true
    case Obj(_) => true
  }

  /** `Number.isInteger(v)`: a number with no fractional part; false for
      every non-number, whatever it would coerce to. */
  predicate IsInteger(v: Value)
  {
    v.Num? && v.n.Floor as real == v.n
  }

  /** The result of JavaScript's ToNumber. */
  datatype Number = NaN | Finite(x: real)

  /** The white space that JavaScript's StringToNumber trims: the WhiteSpace
      and LineTerminator code points. */
  predicate IsJsSpace(c: char)
  {
    c as int in {0x09, 0x0A, 0x0B, 0x0C, 0x0D, 0x20, 0xA0, 0x1680, 0x2028, 0x2029, 0x202F, 0x205F, 0x3000, 0xFEFF}
    || 0x2000 <= c as int <= 0x200A
  }

  /** `s` without its leading and trailing white space. */
  function Trim(s: string): (t: string)
    ensures |t| <= |s|
    ensures t != [] ==> !IsJsSpace(t[0]) && !IsJsSpace(t[|t| - 1])
  {
    if s == [] then []
    else if IsJsSpace(s[0]) then Trim(s[1..])
    else if IsJsSpace(s[|s| - 1]) then Trim(s[..|s| - 1])
    else s
  }

  predicate IsDigit(c: char)
  {
    '0' <= c <= '9'
  }

  predicate AllDigits(s: string)
  {
    forall i :: 0 <= i < |s| ==> IsDigit(s[i])
  }

  function DigitValue(c: char): (d: nat)
    requires IsDigit(c)
    ensures d < 10
  {
    c as int - '0' as int
  }

  function DigitChar(d: nat): (c: char)
    requires d < 10
    ensures IsDigit(c) && DigitValue(c) == d
  {
    ('0' as int + d) as char
  }

  /** The value of a string of decimal digits (the empty string reads as 0). */
  function DecimalValue(s: string): nat
    requires AllDigits(s)
  {
    if s == [] then 0 else 10 * DecimalValue(s[..|s| - 1]) + DigitValue(s[|s| - 1])
  }

  /** JavaScript's ToString of a non-negative integer: its decimal digits,
      with no leading zero. */
  function DecimalString(n: nat): (s: string)
    ensures s != [] && AllDigits(s)
    ensures s[0] == '0' ==> n == 0
  {
    if n < 10 then [DigitChar(n)] else DecimalString(n / 10) + [DigitChar(n % 10)]
  }

  /** Reading back the decimal text of `n` gives `n`. */
  lemma {:induction false} DecimalRoundTrip(n: nat)
    ensures DecimalValue(DecimalString(n)) == n
  {
    if n >= 10 {
      var s := DecimalString(n);
      assert s[..|s| - 1] == DecimalString(n / 10);
      DecimalRoundTrip(n / 10);
    }
  }

  /** JavaScript's StringToNumber, for the literals it reads here: after
      trimming, the empty string is 0 and an optionally signed string of
      decimal digits is that integer; anything else reads as NaN. */
  function StringToNumber(s: string): Number
  {
    var t := Trim(s);
    if t == [] then Finite(0.0)
    else if AllDigits(t) then Finite(DecimalValue(t) as real)
    else if |t| > 1 && (t[0] == '+' || t[0] == '-') && AllDigits(t[1..]) then
      var m := DecimalValue(t[1..]) as real;
      Finite(if t[0] == '-' then -m else m)
    else NaN
  }

  /** The number a string of digits is read as, and its decimal text read back. */
  lemma StringToNumberOfDecimal(n: nat)
    ensures StringToNumber(DecimalString(n)) == Finite(n as real)
  {
    var s := DecimalString(n);
    assert !IsJsSpace(s[0]) && !IsJsSpace(s[|s| - 1]);
    assert Trim(s) == s;
    DecimalRoundTrip(n);
  }

  /** JavaScript's ToNumber, as the relational operators apply it: arrays and
      objects first become strings (an array joins its elements with ",", an
      object becomes "[object Object]"), and that string is read as a number. */
  function ToNumber(v: Value): Number
  {
    match v
    case Undefined => NaN
    case Null => Finite(0.0)
    case Bool(b) => Finite(if b then 1.0 else 0.0)
    case Num(n) => Finite(n)
    case Str(s) => StringToNumber(s)
    case Obj(_) => NaN
    case Arr(items) =>
      if |items| == 0 then Finite(0.0)
      else if |items| > 1 then NaN
      else match items[0]
        case Undefined => Finite(0.0)
        case Null => Finite(0.0)
        case Bool(_) => NaN
        case _ => ToNumber(items[0])
  }

  /** `v < k` for a number literal `k`; a comparison with NaN is false. */
  predicate LessThan(v: Value, k: real)
  {
    match ToNumber(v)
    case NaN => false
    case Finite(x) => x < k
  }

  /** `v > k` for a number literal `k`; a comparison with NaN is false. */
  predicate GreaterThan(v: Value, k: real)
  {
    match ToNumber(v)
    case NaN => false
    case Finite(x) => x > k
  }

  /** Every falsy value other than `undefined` coerces to 0. */
  lemma FalsyCoercesToZero(v: Value)
    requires !Truthy(v) && v != Undefined
    ensures ToNumber(v) == Finite(0.0)
  {
  }
}
