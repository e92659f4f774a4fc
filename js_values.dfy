/**
 * The JavaScript values that can reach the event handlers through a parsed
 * JSON request body, together with the three pieces of JavaScript semantics
 * the handlers depend on: truthiness (the `!x` tests of the validation),
 * strict equality (the `===` of the id lookup) and the string conversion a
 * template literal applies (the `${id}` of the mirror file name).
 */
module JsValues {

  datatype Option<T> = None | Some(value: T)

  /** Number.MAX_SAFE_INTEGER, 2^53 - 1. */
  const MaxSafeInteger: int := 0x1F_FFFF_FFFF_FFFF

  /** The integers a JavaScript number holds exactly, together with all
      their neighbours: distinct ones are distinct doubles, and each prints
      as its own decimal digits. */
  type SafeInteger = n: int | -MaxSafeInteger <= n <= MaxSafeInteger

  /** A value destructured from `req.body`. A field the body lacks reads as
      `Undefined`. Numbers are modelled as safe integers. */
  datatype JsValue =
    | Undefined
    | Null
    | Bool(b: bool)
    | Num(n: SafeInteger)
    | Str(s: string)
    | Arr(items: seq<JsValue>)
    | Obj(fields: map<string, JsValue>)

  /** JavaScript truthiness: `undefined`, `null`, `false`, `0` and `""` are
      falsy, every array and object is truthy. */
  predicate Truthy(v: JsValue) {
    match v
    case Undefined => false
    case Null => false
    case Bool(b) => b
    case Num(n) => n != 0
    case Str(s) => s != ""
    case Arr(_) => true
    case Obj(_) => true
  }

  /** The falsy values a JSON body can carry are exactly `undefined`,
      `null`, `false`, `0` and the empty string. */
  lemma FalsyValues(v: JsValue)
    ensures !Truthy(v) <==> v == Undefined || v == Null || v == Bool(false) || v == Num(0) || v == Str("")
  {
  }

  /** Values compared by `===` only by their content. */
  predicate IsPrimitive(v: JsValue) {
    !v.Arr? && !v.Obj?
  }

  /** JavaScript `===` between a stored id and the id of a later request.
      Primitives are equal when they have the same type and content. Arrays
      and objects compare by reference, and every request body is parsed into
      fresh objects, so such an id never equals one stored by an earlier call. */
  predicate StrictEquals(a: JsValue, b: JsValue) {
    match (a, b)
    case (Undefined, Undefined) => true
    case (Null, Null) => true
    case (Bool(x), Bool(y)) => x == y
    case (Num(x), Num(y)) => x == y
    case (Str(x), Str(y)) => x == y
    case _ => false
  }

  /** `===` is exactly equality restricted to primitives; in particular it is
      symmetric and transitive on the values it relates. */
  lemma StrictEqualsIsPrimitiveEquality(a: JsValue, b: JsValue)
    ensures StrictEquals(a, b) <==> a == b && IsPrimitive(a)
  {
  }

  function DigitChar(d: nat): (c: char)
    requires d < 10
    ensures '0' <= c <= '9'
  {
    "0123456789"[d]
  }

  function DigitValue(c: char): (d: nat)
    requires '0' <= c <= '9'
    ensures d < 10 && DigitChar(d) == c
  {
    (c - '0') as nat
  }

  predicate AllDigits(s: string) {
    forall i :: 0 <= i < |s| ==> '0' <= s[i] <= '9'
  }

  /** The decimal rendering of a non-negative integer: non-empty, digits
      only, and without a leading zero unless it is "0". */
  function Decimal(n: nat): (s: string)
    ensures |s| > 0 && AllDigits(s)
    ensures s[0] == '0' ==> n == 0
  {
    if n < 10 then [DigitChar(n)] else Decimal(n / 10) + [DigitChar(n % 10)]
  }

  /** The value of a string of decimal digits. */
  function ParseDecimal(s: string): nat
    requires AllDigits(s)
  {
    if s == [] then 0 else ParseDecimal(s[..|s| - 1]) * 10 + DigitValue(s[|s| - 1])
  }

  /** Reading a rendered number back gives the number. */
  lemma {:induction false} DecimalRoundTrip(n: nat)
    ensures ParseDecimal(Decimal(n)) == n
  {
    if n >= 10 {
      var prefix := Decimal(n / 10);
      var s := prefix + [DigitChar(n % 10)];
      assert s[..|s| - 1] == prefix;
      DecimalRoundTrip(n / 10);
    } else {
      assert Decimal(n)[..0] == [];
    }
  }

  /** Different numbers render differently. */
  lemma DecimalInjective(m: nat, n: nat)
    requires Decimal(m) == Decimal(n)
    ensures m == n
  {
    DecimalRoundTrip(m);
    DecimalRoundTrip(n);
  }

  /** The string a number converts to (ECMAScript Number::toString). For a
      safe integer the shortest digits that read back as the same double are
      exactly its decimal digits, with a minus sign when it is negative. */
  function NumberToString(n: SafeInteger): string {
    if n < 0 then "-" + Decimal(-n) else Decimal(n)
  }

  /** The value of an optionally signed string of decimal digits. */
  function ParseInteger(s: string): int
    requires s != [] && (s[0] == '-' ==> AllDigits(s[1..])) && (s[0] != '-' ==> AllDigits(s))
  {
    if s[0] == '-' then -(ParseDecimal(s[1..]) as int) else ParseDecimal(s)
  }

  /** Whether ToString throws a TypeError on `v`. A parsed object with its own
      `toString` key has a `toString` that is not callable, and its `valueOf`
      is either not callable or returns the object itself, so no primitive can
      be obtained. An array converts through `join`, which converts each
      element that is neither `null` nor `undefined`. */
  predicate ConversionThrows(v: JsValue) {
    match v
    case Obj(fields) => "toString" in fields
    case Arr(items) => exists k :: 0 <= k < |items| && ConversionThrows(items[k])
    case _ => false
  }

  /** The string conversion a template literal applies to a value
      (ECMAScript ToString), or `None` when it throws. An array converts to its
      elements joined by commas, with `null` and `undefined` elements as empty
      strings; an object without its own `toString` to "[object Object]". */
  function ToString(v: JsValue): Option<string>
    decreases v, if v.Arr? then |v.items| + 1 else 0
  {
    match v
    case Undefined => Some("undefined")
    case Null => Some("null")
    case Bool(b) => Some(if b then "true" else "false")
    case Num(n) => Some(NumberToString(n))
    case Str(s) => Some(s)
    case Arr(items) => JoinElements(v, 0)
    case Obj(fields) => if "toString" in fields then None else Some("[object Object]")
  }

  /** `Array.prototype.join(",")` over the elements of `arr` from index `i`,
      or `None` when converting one of them throws. */
  function JoinElements(arr: JsValue, i: nat): Option<string>
    requires arr.Arr? && i <= |arr.items|
    decreases arr, |arr.items| - i
  {
    if i == |arr.items| then Some("")
    else
      var element := arr.items[i];
      var text := if element.Undefined? || element.Null? then Some("") else ToString(element);
      if text.None? then None
      else if i + 1 == |arr.items| then text
      else
        var rest := JoinElements(arr, i + 1);
        if rest.None? then None else Some(text.value + "," + rest.value)
  }

  /** The template literal throws exactly on the values `ConversionThrows`
      describes. */
  lemma {:induction false} ToStringThrowsIff(v: JsValue)
    ensures ToString(v).None? <==> ConversionThrows(v)
    decreases v, if v.Arr? then |v.items| + 1 else 0
  {
    if v.Arr? {
      JoinThrowsIff(v, 0);
    }
  }

  lemma {:induction false} JoinThrowsIff(arr: JsValue, i: nat)
    requires arr.Arr? && i <= |arr.items|
    ensures JoinElements(arr, i).None? <==> exists k :: i <= k < |arr.items| && ConversionThrows(arr.items[k])
    decreases arr, |arr.items| - i
  {
    if i < |arr.items| {
      var element := arr.items[i];
      if !element.Undefined? && !element.Null? {
        ToStringThrowsIff(element);
      }
      if i + 1 < |arr.items| {
        JoinThrowsIff(arr, i + 1);
        if exists k :: i + 1 <= k < |arr.items| && ConversionThrows(arr.items[k]) {
          var k :| i + 1 <= k < |arr.items| && ConversionThrows(arr.items[k]);
          assert i <= k;
        }
      }
    }
  }

  /** A numeric id converts to digits that read back as the id. */
  lemma NumericIdRoundTrip(n: SafeInteger)
    ensures ToString(Num(n)).Some?
    ensures var s := ToString(Num(n)).value;
            && s != [] && (s[0] == '-' ==> AllDigits(s[1..])) && (s[0] != '-' ==> AllDigits(s))
            && ParseInteger(s) == n
  {
    var s := NumberToString(n);
    if n < 0 {
      assert s[1..] == Decimal(-n);
      DecimalRoundTrip(-n);
    } else {
      DecimalRoundTrip(n);
    }
  }
}
