/**
 * The JavaScript values the source inspects after `JSON.parse` and in its
 * dictionary walk, with the language's truthiness, `String(v)` conversion
 * and own-property reads. Numbers are modelled as integers.
 */
module JsValues {
  import opened Wrappers
  import JsStrings
  import Base64

  datatype JsValue =
    | Undefined
    | Null
    | Bool(b: bool)
    | Num(n: int)
    | Str(s: string)
    | Arr(items: seq<JsValue>)
    | Obj(fields: map<string, JsValue>)

  /**
   * The exceptions the modelled code can raise: from decodeURIComponent
   * (URIError), btoa (InvalidCharacterError), importing an empty HMAC key
   * (DataError), reading a property of null or undefined (TypeError), an
   * invalid Date (RangeError), a provider response that is not ok (the
   * `Error` thrown with its status) and a D1 uniqueness violation.
   */
  datatype JsError =
    | URIError
    | InvalidCharacterError
    | DataError
    | TypeError
    | RangeError
    | ProviderError(status: int)
    | ConstraintError

  /** ToBoolean: what `if (v)`, `!v`, `v || w` and `v && w` test. */
  predicate Truthy(v: JsValue)
  {
    match v
    case Undefined => false
    case Null => false
    case Bool(b) => b
    case Num(n) => n != 0
    case Str(s) => s != ""
    case Arr(_) => true
    case Obj(_) => true
  }

  /** `a || b`: `a` when it is truthy, otherwise `b`. */
  function Or(a: JsValue, b: JsValue): (r: JsValue)
    ensures Truthy(a) ==> r == a
    ensures !Truthy(a) ==> r == b
  {
    if Truthy(a) then a else b
  }

  /** The decimal digits of a natural number, most significant first. */
  function NatDigits(n: nat): (r: string)
    ensures |r| >= 1 && forall i :: 0 <= i < |r| ==> '0' <= r[i] <= '9'
    ensures |r| > 1 ==> r[0] != '0'
  {
    if n < 10 then [('0' as int + n) as char] else NatDigits(n / 10) + [('0' as int + n % 10) as char]
  }

  /** The value of a string of decimal digits. */
  function DigitsValue(s: string): nat
    requires forall i :: 0 <= i < |s| ==> '0' <= s[i] <= '9'
  {
    if |s| == 0 then 0 else DigitsValue(s[..|s| - 1]) * 10 + (s[|s| - 1] as int - '0' as int)
  }

  lemma {:induction false} DigitsValueOfNatDigits(n: nat)
    ensures DigitsValue(NatDigits(n)) == n
  {
    if n >= 10 {
      DigitsValueOfNatDigits(n / 10);
      var d := NatDigits(n);
      assert d[..|d| - 1] == NatDigits(n / 10);
    }
  }

  /** Number::toString for an integer value: `-` and the decimal digits. */
  function DecimalString(n: int): string
  {
    if n < 0 then "-" + NatDigits(-n) else NatDigits(n)
  }

  /** An array index written canonically: decimal digits without a leading zero. */
  function CanonicalIndex(p: string): (r: Option<nat>)
    ensures r.Some? ==> NatDigits(r.value) == p
  {
    if |p| == 0 || (|p| > 1 && p[0] == '0') || exists i :: 0 <= i < |p| && !('0' <= p[i] <= '9') then None
    else
      CanonicalDigits(p);
      Some(DigitsValue(p))
  }

  lemma {:induction false} CanonicalDigits(p: string)
    requires |p| >= 1 && forall i :: 0 <= i < |p| ==> '0' <= p[i] <= '9'
    requires |p| > 1 ==> p[0] != '0'
    ensures NatDigits(DigitsValue(p)) == p
    decreases |p|
  {
    var init := p[..|p| - 1];
    var last := p[|p| - 1] as int - '0' as int;
    if |p| > 1 {
      CanonicalDigits(init);
      var v := DigitsValue(init);
      assert init[0] == p[0] && NatDigits(0) == "0";
      assert v >= 1;
      assert DigitsValue(p) == v * 10 + last;
      DivideByTen(v, last);
      assert NatDigits(DigitsValue(p)) == NatDigits(v) + [('0' as int + last) as char];
      assert p == init + [p[|p| - 1]];
    }
  }

  lemma DivideByTen(v: nat, d: int)
    requires 0 <= d < 10
    ensures (v * 10 + d) / 10 == v && (v * 10 + d) % 10 == d
  {
  }

  /**
   * `Object.prototype.hasOwnProperty.call(v, key)` together with the value of
   * that own property: the fields of an object, and `length` and the indices
   * of a string or an array. Numbers and booleans have no own properties.
   */
  function OwnProperty(v: JsValue, key: string): Option<JsValue>
  {
    match v
    case Obj(m) => if key in m then Some(m[key]) else None
    case Str(s) =>
      if key == "length" then Some(Num(|s|))
      else (match CanonicalIndex(key)
        case Some(i) => if i < |s| then Some(Str([s[i]])) else None
        case None => None)
    case Arr(items) =>
      if key == "length" then Some(Num(|items|))
      else (match CanonicalIndex(key)
        case Some(i) => if i < |items| then Some(items[i]) else None
        case None => None)
    case _ => None
  }

  /**
   * `v[key]` for a key that no prototype defines (`state`, `code_verifier`,
   * `sid`): the own property, else undefined.
   */
  function Get(v: JsValue, key: string): JsValue
  {
    match OwnProperty(v, key)
    case Some(w) => w
    case None => Undefined
  }

  /**
   * `String(v)`. A string is itself; a number is its decimal text, which
   * reads back as the number and starts with `-` exactly when it is negative.
   */
  function ToJsString(v: JsValue): (r: string)
    ensures v.Str? ==> r == v.s
    ensures v.Num? && v.n >= 0 ==> (forall i :: 0 <= i < |r| ==> '0' <= r[i] <= '9') && DigitsValue(r) == v.n
    ensures v.Num? ==> |r| >= 1 && (r[0] == '-' <==> v.n < 0)
  {
    match v
    case Undefined => "undefined"
    case Null => "null"
    case Bool(b) => if b then "true" else "false"
    case Num(n) =>
      var t := DecimalString(n);
      assert n >= 0 ==> DigitsValue(t) == n by {
        if n >= 0 {
          DigitsValueOfNatDigits(n);
        }
      }
      t
    case Str(s) => s
    case Arr(items) => JoinItems(items)
    case Obj(_) => "[object Object]"
  }

  /** `items.join(',')`: undefined and null elements become empty strings. */
  function JoinItems(items: seq<JsValue>): string
    decreases items
  {
    if |items| == 0 then ""
    else
      var first := if items[0].Undefined? || items[0].Null? then "" else ToJsString(items[0]);
      if |items| == 1 then first else first + "," + JoinItems(items[1..])
  }

  /** `String(v || '')`, the coercion readPkceCookie applies to each field. */
  function FieldText(v: JsValue): (r: string)
    ensures !Truthy(v) ==> r == ""
    ensures v.Str? ==> r == v.s
  {
    ToJsString(Or(v, Str("")))
  }

  /** A value JSON can carry: no undefined anywhere inside it. */
  predicate IsJson(v: JsValue)
  {
    match v
    case Undefined => false
    case Arr(items) => forall i :: 0 <= i < |items| ==> IsJson(items[i])
    case Obj(m) => forall k :: k in m ==> IsJson(m[k])
    case _ => true
  }

  /** Every string inside the value, keys included, is Latin-1. */
  predicate IsLatin1Value(v: JsValue)
  {
    match v
    case Str(s) => Base64.IsLatin1(s)
    case Arr(items) => forall i :: 0 <= i < |items| ==> IsLatin1Value(items[i])
    case Obj(m) => forall k :: k in m ==> Base64.IsLatin1(k) && IsLatin1Value(m[k])
    case _ => true
  }

  /** An object of string fields, the shape of both signed payloads. */
  function StringRecord(m: map<string, string>): (r: JsValue)
    ensures IsJson(r)
    ensures (forall k :: k in m ==> Base64.IsLatin1(k) && Base64.IsLatin1(m[k])) ==> IsLatin1Value(r)
    ensures forall k :: k in m ==> Get(r, k) == Str(m[k])
  {
    Obj(map k | k in m :: Str(m[k]))
  }
}
