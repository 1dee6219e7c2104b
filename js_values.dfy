/**
 * The slice of JavaScript value semantics the reducer and the tile
 * reconstruction rely on: property reads (which throw a TypeError on
 * `undefined` and `null`), optional chaining, truthiness, object spread,
 * computed keys, strict equality and `Array.prototype.map`.
 */
module JsValues {
  import opened Options

  datatype JsValue =
    | Undefined
    | Null
    | Bool(b: bool)
    | Num(n: int)
    | Str(s: string)
    | Arr(items: seq<JsValue>)
    | Obj(fields: map<string, JsValue>)

  /** The result of evaluating an expression that may throw a TypeError. */
  datatype Outcome<T> = Ok(value: T) | TypeError

  predicate IsNullish(v: JsValue) {
    v.Undefined? || v.Null?
  }

  /** `!!v`. */
  predicate Truthy(v: JsValue) {
    match v
    case Undefined => false
    case Null => false
    case Bool(b) => b
    case Num(n) => n != 0
    case Str(s) => s != ""
    case Arr(_) => true
    case Obj(_) => true
  }

  /** `a || b`: the left operand when it is truthy, the right one otherwise. */
  function Or(a: JsValue, b: JsValue): (r: JsValue)
    ensures Truthy(a) ==> r == a
    ensures !Truthy(a) ==> r == b
  {
    if Truthy(a) then a else b
  }

  /**
   * `||` is associative: `a || b || c`, which JavaScript groups as
   * `(a || b) || c`, picks the same operand as `a || (b || c)`.
   */
  lemma OrAssociative(a: JsValue, b: JsValue, c: JsValue)
    ensures Or(Or(a, b), c) == Or(a, Or(b, c))
  {
  }

  /** `a || b` is truthy exactly when one of its operands is. */
  lemma OrTruthy(a: JsValue, b: JsValue)
    ensures Truthy(Or(a, b)) <==> Truthy(a) || Truthy(b)
  {
  }

  function DigitChar(d: int): char
    requires 0 <= d < 10
  {
    "0123456789"[d]
  }

  function DigitValue(c: char): (d: int)
    requires IsDigit(c)
    ensures 0 <= d < 10
  {
    c as int - '0' as int
  }

  predicate IsDigit(c: char) {
    '0' <= c <= '9'
  }

  /** Decimal notation of a natural number, as `String(n)` prints it. */
  function NatToString(n: nat): (r: string)
    ensures |r| >= 1 && forall i :: 0 <= i < |r| ==> IsDigit(r[i])
    decreases n
  {
    if n < 10 then [DigitChar(n)] else NatToString(n / 10) + [DigitChar(n % 10)]
  }

  function IntToString(i: int): string {
    if i < 0 then "-" + NatToString(-i) else NatToString(i)
  }

  function DigitsValue(s: string): nat
    requires forall i :: 0 <= i < |s| ==> IsDigit(s[i])
  {
    if s == [] then 0 else DigitsValue(s[..|s| - 1]) * 10 + DigitValue(s[|s| - 1])
  }

  /** A canonical array index key: digits only, no leading zero except "0" itself. */
  function ParseIndex(key: string): Option<nat> {
    if key != [] && (forall i :: 0 <= i < |key| ==> IsDigit(key[i])) && (key[0] != '0' || |key| == 1)
    then Some(DigitsValue(key))
    else None
  }

  lemma {:induction false} NatToStringNoLeadingZero(n: nat)
    ensures NatToString(n)[0] == '0' ==> n == 0
    decreases n
  {
    if n >= 10 {
      NatToStringNoLeadingZero(n / 10);
      assert NatToString(n)[0] == NatToString(n / 10)[0];
    }
  }

  lemma {:induction false} DigitsValueRoundTrip(n: nat)
    ensures DigitsValue(NatToString(n)) == n
    decreases n
  {
    if n >= 10 {
      var s := NatToString(n);
      assert s[..|s| - 1] == NatToString(n / 10);
      DigitsValueRoundTrip(n / 10);
    }
  }

  /** Array keys round-trip: the key printed for index n parses back to n. */
  lemma ParseIndexRoundTrip(n: nat)
    ensures ParseIndex(NatToString(n)) == Some(n)
  {
    NatToStringNoLeadingZero(n);
    DigitsValueRoundTrip(n);
  }

  /** Distinct indices print as distinct keys. */
  lemma NatToStringInjective(a: nat, b: nat)
    requires NatToString(a) == NatToString(b)
    ensures a == b
  {
    ParseIndexRoundTrip(a);
    ParseIndexRoundTrip(b);
  }

  /**
   * `v[key]` for a string key. Reading any property of `undefined` or
   * `null` throws; strings and arrays expose `length` and their indices;
   * other primitives have no own properties.
   */
  function Get(v: JsValue, key: string): Outcome<JsValue> {
    match v
    case Undefined => TypeError
    case Null => TypeError
    case Bool(_) => Ok(Undefined)
    case Num(_) => Ok(Undefined)
    case Str(s) =>
      if key == "length" then Ok(Num(|s|))
      else if ParseIndex(key).Some? && ParseIndex(key).value < |s| then Ok(Str([s[ParseIndex(key).value]]))
      else Ok(Undefined)
    case Arr(items) =>
      if key == "length" then Ok(Num(|items|))
      else if ParseIndex(key).Some? && ParseIndex(key).value < |items| then Ok(items[ParseIndex(key).value])
      else Ok(Undefined)
    case Obj(m) => if key in m then Ok(m[key]) else Ok(Undefined)
  }

  /** `v?.key`: `undefined` when v is nullish, the property otherwise. */
  function OptGet(v: JsValue, key: string): (r: JsValue)
    ensures IsNullish(v) ==> r == Undefined
    ensures !IsNullish(v) ==> Get(v, key) == Ok(r)
  {
    match Get(v, key)
    case Ok(x) => x
    case TypeError => Undefined
  }

  /** `v?.[key]` chained from an outcome: a thrown error stays thrown. */
  function ThenGet(o: Outcome<JsValue>, key: string): Outcome<JsValue> {
    match o
    case TypeError => TypeError
    case Ok(v) => Get(v, key)
  }

  /** `items.join(",")` over the first n elements: nullish elements print empty. */
  function JoinKeys(v: JsValue, n: nat): string
    requires v.Arr? && n <= |v.items|
    decreases v, n
  {
    if n == 0 then ""
    else
      var last := if IsNullish(v.items[n - 1]) then "" else ToKey(v.items[n - 1]);
      if n == 1 then last else JoinKeys(v, n - 1) + "," + last
  }

  /** The property key a computed member `o[v]` uses: `String(v)`. */
  function ToKey(v: JsValue): string
    decreases v, if v.Arr? then |v.items| + 1 else 0
  {
    match v
    case Undefined => "undefined"
    case Null => "null"
    case Bool(b) => if b then "true" else "false"
    case Num(n) => IntToString(n)
    case Str(s) => s
    case Arr(items) => JoinKeys(v, |items|)
    case Obj(_) => "[object Object]"
  }

  /** `{...v}`: own enumerable properties; primitives other than strings contribute none. */
  function Spread(v: JsValue): map<string, JsValue> {
    match v
    case Obj(m) => m
    case Arr(items) =>
      AllNatToStringInjective();
      map i | 0 <= i < |items| :: NatToString(i) := items[i]
    case Str(s) =>
      AllNatToStringInjective();
      map i | 0 <= i < |s| :: NatToString(i) := Str([s[i]])
    case _ => map[]
  }

  lemma AllNatToStringInjective()
    ensures forall a: nat, b: nat :: NatToString(a) == NatToString(b) ==> a == b
  {
    forall a: nat, b: nat | NatToString(a) == NatToString(b)
      ensures a == b
    {
      NatToStringInjective(a, b);
    }
  }

  /**
   * `a === b`. Primitives compare by value; two object or array operands
   * are treated as distinct references.
   */
  predicate StrictEq(a: JsValue, b: JsValue) {
    match (a, b)
    case (Undefined, Undefined) => true
    case (Null, Null) => true
    case (Bool(x), Bool(y)) => x == y
    case (Num(x), Num(y)) => x == y
    case (Str(x), Str(y)) => x == y
    case _ => false
  }

  /** The callback results of `items.map(f)` from position i on; the first throw aborts. */
  function MapFrom(items: seq<JsValue>, f: (JsValue, nat) -> Outcome<JsValue>, i: nat): (r: Outcome<seq<JsValue>>)
    requires i <= |items|
    ensures r.Ok? ==> |r.value| == |items| - i
    ensures r.Ok? ==> forall k :: i <= k < |items| ==> f(items[k], k) == Ok(r.value[k - i])
    ensures r.Ok? <==> forall k :: i <= k < |items| ==> f(items[k], k).Ok?
    decreases |items| - i
  {
    if i == |items| then Ok([])
    else
      match f(items[i], i)
      case TypeError => TypeError
      case Ok(x) =>
        match MapFrom(items, f, i + 1)
        case TypeError => TypeError
        case Ok(rest) => Ok([x] + rest)
  }

  /**
   * `v.map(f)`: only arrays have a `map` method; on nullish values the
   * property read throws, on anything else the call of a non-function does.
   */
  function MapArray(v: JsValue, f: (JsValue, nat) -> Outcome<JsValue>): (r: Outcome<JsValue>)
    ensures !v.Arr? ==> r == TypeError
    ensures v.Arr? && r.Ok? ==> r.value.Arr? && |r.value.items| == |v.items|
    ensures v.Arr? && r.Ok? ==> forall k :: 0 <= k < |v.items| ==> f(v.items[k], k) == Ok(r.value.items[k])
    ensures v.Arr? ==> (r.Ok? <==> forall k :: 0 <= k < |v.items| ==> f(v.items[k], k).Ok?)
  {
    match v
    case Arr(items) =>
      (match MapFrom(items, f, 0)
       case TypeError => TypeError
       case Ok(xs) => Ok(Arr(xs)))
    case _ => TypeError
  }
}
