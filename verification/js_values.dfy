/**
 * The slice of JavaScript's value semantics the plugin relies on: the values a
 * chart label, a raw series value or a formatter's result can take, the
 * truthiness behind `a || b`, the string conversion behind `'...' + v`, and
 * out-of-range array reads, which yield `undefined`.
 */
module JsValues {

  datatype Option<+T> = None | Some(value: T)

  /** A JavaScript value as far as the plugin inspects it. */
  datatype JsValue = Undefined | Null | Str(s: string) | Num(n: int)

  /** JavaScript truthiness: undefined, null, '' and 0 are falsy. */
  predicate Truthy(v: JsValue) {
    match v
    case Undefined => false
    case Null => false
    case Str(s) => s != ""
    case Num(n) => n != 0
  }

  /** `a || b`: the left operand when it is truthy, the right one otherwise. */
  function Or(a: JsValue, b: JsValue): (r: JsValue)
    ensures Truthy(a) ==> r == a
    ensures !Truthy(a) ==> r == b
  {
    if Truthy(a) then a else b
  }

  /** `xs[i]` where `i` may be `undefined` or past the end: both give `undefined`. */
  function Lookup(xs: seq<JsValue>, i: Option<nat>): (r: JsValue)
    ensures i.Some? && i.value < |xs| ==> r == xs[i.value]
    ensures i.None? || i.value >= |xs| ==> r == Undefined
  {
    if i.Some? && i.value < |xs| then xs[i.value] else Undefined
  }

  /** `coords[i]` for the integer pixel positions; `None` stands for `undefined`. */
  function CoordAt(coords: seq<int>, i: Option<nat>): (r: Option<int>)
    ensures r.Some? <==> i.Some? && i.value < |coords|
    ensures r.Some? ==> r.value == coords[i.value]
  {
    if i.Some? && i.value < |coords| then Some(coords[i.value]) else None
  }

  function DigitChar(d: nat): char
    requires d < 10
  {
    ('0' as int + d) as char
  }

  /** Decimal notation as JavaScript prints an integer: digits only, with no leading zero. */
  ghost predicate Canonical(s: string) {
    && |s| >= 1
    && (forall k :: 0 <= k < |s| ==> '0' <= s[k] <= '9')
    && (|s| > 1 ==> s[0] != '0')
  }

  /** Decimal notation of a natural number, as `String(n)` prints it. */
  function NatToString(n: nat): (r: string)
    ensures Canonical(r)
    ensures r[0] == '0' ==> n == 0
    decreases n
  {
    if n < 10 then [DigitChar(n)] else NatToString(n / 10) + [DigitChar(n % 10)]
  }

  /** The numeric value of a string of decimal digits. */
  function DigitsValue(s: string): int
    decreases |s|
  {
    if s == [] then 0 else DigitsValue(s[..|s| - 1]) * 10 + (s[|s| - 1] as int - '0' as int)
  }

  /** Reading back the printed digits gives the number again. */
  lemma {:induction false} NatToStringRoundTrip(n: nat)
    ensures DigitsValue(NatToString(n)) == n
    decreases n
  {
    if n >= 10 {
      NatToStringRoundTrip(n / 10);
      var s := NatToString(n);
      assert s[..|s| - 1] == NatToString(n / 10);
      assert s[|s| - 1] as int - '0' as int == n % 10;
      assert DigitsValue(s) == DigitsValue(NatToString(n / 10)) * 10 + n % 10;
    }
  }

  /** JavaScript's string conversion `String(v)`, used wherever a value is concatenated into markup. */
  function ToStr(v: JsValue): (r: string)
    ensures v.Undefined? ==> r == "undefined"
    ensures v.Null? ==> r == "null"
    ensures v.Str? ==> r == v.s
    ensures v.Num? && v.n >= 0 ==> Canonical(r) && DigitsValue(r) == v.n
    ensures v.Num? && v.n < 0 ==> |r| >= 2 && r[0] == '-' && Canonical(r[1..]) && DigitsValue(r[1..]) == -v.n
  {
    match v
    case Undefined => "undefined"
    case Null => "null"
    case Str(s) => s
    case Num(n) =>
      NatToStringRoundTrip(if n < 0 then -n else n);
      if n < 0 then "-" + NatToString(-n) else NatToString(n)
  }

  /** Concatenation of a sequence of strings, left to right. */
  function Concat(parts: seq<string>): string
    decreases |parts|
  {
    if parts == [] then "" else parts[0] + Concat(parts[1..])
  }
}
