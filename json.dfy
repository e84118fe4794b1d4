/** JavaScript values as `JSON.parse` produces them (RFC 8259 text decoded),
    with the few JavaScript conversions the route applies to them: truthiness,
    `String(v)`, `Array.prototype.join` and property reads.

    `JSON.parse` itself is not modelled: every operation that parses takes it
    as a parameter `parse: string -> Option<JsonValue>`, `None` standing for a
    `SyntaxError`. */
module Json {
  import opened Options
  import opened JsText

  /** A parsed value. A number carries the text `String(x)` gives for it
      (so negative zero carries "0"). An object maps member names to values;
      `JSON.parse` keeps the last of repeated names, so a map loses nothing. */
  datatype JsonValue =
    | JNull
    | JBool(b: bool)
    | JNumber(text: string)
    | JString(s: string)
    | JArray(items: seq<JsonValue>)
    | JObject(members: map<string, JsonValue>)

  /** JavaScript truthiness: `null`, `false`, zero and the empty string are
      falsy; arrays and objects, even empty ones, are truthy. */
  predicate Truthy(v: JsonValue) {
    match v
    case JNull => false
    case JBool(b) => b
    case JNumber(t) => t != "0"
    case JString(s) => s != ""
    case JArray(_) => true
    case JObject(_) => true
  }

  /** `String(v)` of a `Convertible` value: strings as they are, numbers by
      their text, arrays by `join(",")`, plain objects as `[object Object]`. */
  function ToText(v: JsonValue): string
    decreases v, 0
  {
    match v
    case JNull => "null"
    case JBool(b) => if b then "true" else "false"
    case JNumber(t) => t
    case JString(s) => s
    case JArray(items) => Join(items, ",")
    case JObject(_) => "[object Object]"
  }

  /** `items.join(sep)`: the elements' texts with `sep` between them, `null`
      elements contributing the empty string. */
  function Join(items: seq<JsonValue>, sep: string): string
    decreases items, 2
  {
    if items == [] then ""
    else if |items| == 1 then ElementText(items[0])
    else Join(items[..|items| - 1], sep) + sep + ElementText(items[|items| - 1])
  }

  function ElementText(v: JsonValue): string
    decreases v, 1
  {
    if v.JNull? then "" else ToText(v)
  }

  /** Converting `v` to a string or a number completes. The conversion of an
      object calls its `toString` and `valueOf` methods (ECMA-262,
      OrdinaryToPrimitive). Nothing `JSON.parse` builds is callable, so an
      object with a `toString` member of its own has no usable `toString`,
      the inherited `valueOf` returns the object itself, and the conversion
      throws a TypeError. An array converts through `join`, so through each
      of its elements. */
  predicate Convertible(v: JsonValue) {
    match v
    case JArray(items) => forall k :: 0 <= k < |items| ==> Convertible(items[k])
    case JObject(members) => "toString" !in members
    case _ => true
  }

  /** A falsy value is never an object, so it always converts. */
  lemma FalsyConverts(v: JsonValue)
    requires !Truthy(v)
    ensures Convertible(v)
  {
  }

  /** The conversion fails on an object with its own `toString`, on an array
      holding one, at any depth, and on nothing else. */
  lemma ConversionFailures(m: map<string, JsonValue>, items: seq<JsonValue>, x: JsonValue)
    ensures Convertible(JObject(m)) <==> "toString" !in m
    ensures !Convertible(JObject(map["toString" := x]))
    ensures Convertible(JObject(map["valueOf" := x]))
    ensures Convertible(JArray(items + [x])) <==> Convertible(JArray(items)) && Convertible(x)
    ensures !Convertible(JArray([JArray([JObject(map["toString" := x])])]))
  {
    var inner := JObject(map["toString" := x]);
    assert "toString" in inner.members;
    assert JArray([inner]).items[0] == inner;
    assert JArray([JArray([inner])]).items[0] == JArray([inner]);
    var all := items + [x];
    assert all[|items|] == x;
    assert forall k :: 0 <= k < |items| ==> all[k] == items[k];
  }

  /** Every element's text appears in the joined text, in order: the join of
      `items + [x]` extends the join of `items`. */
  lemma JoinExtends(items: seq<JsonValue>, x: JsonValue, sep: string)
    requires items != []
    ensures Join(items + [x], sep) == Join(items, sep) + sep + ElementText(x)
  {
    assert (items + [x])[..|items|] == items;
  }

  /** The property read `v.name` on a parsed value: a member of an object,
      `undefined` (`None`) for everything else. */
  function Member(v: JsonValue, name: string): Option<JsonValue> {
    if v.JObject? && name in v.members then Some(v.members[name]) else None
  }

  // ---------------------------------------------------------------------
  // The comparison `v > 0`.

  /** `v > 0` as JavaScript evaluates it on a parsed value: the value is
      converted to a number. `null` is 0, a boolean is 0 or 1, and a plain
      object converts through the text `[object Object]`, which is NaN.
      Numbers, strings and arrays convert through their text (an array
      through `join(",")`). */
  predicate GreaterThanZero(v: JsonValue) {
    match v
    case JNull => false
    case JBool(b) => b
    case JObject(_) => false
    case _ => NumericTextPositive(ToText(v))
  }

  /** `Number(s) > 0`: the text, with white space trimmed, is a numeric
      literal of ECMA-262's StringToNumber with a positive value. Trimmed
      empty text is 0, and text that is not such a literal is NaN; neither
      is positive. A sign is allowed only on a decimal literal, and a `-`
      never gives a positive value. */
  predicate NumericTextPositive(s: string) {
    var t := Trim(s);
    if |t| >= 2 && t[0] == '0' && t[1] in "xXoObB" then RadixPositive(t[2..], t[1])
    else if t != [] && t[0] == '+' then UnsignedPositive(t[1..])
    else if t != [] && t[0] == '-' then false
    else UnsignedPositive(t)
  }

  /** A digit of the radix that `0x`, `0o` or `0b` announces. */
  predicate RadixDigit(c: char, radix: char) {
    if radix == 'x' || radix == 'X' then IsDigit(c) || 'a' <= c <= 'f' || 'A' <= c <= 'F'
    else if radix == 'o' || radix == 'O' then '0' <= c <= '7'
    else c == '0' || c == '1'
  }

  predicate HasNonZeroDigit(m: string) {
    exists k :: 0 <= k < |m| && '1' <= m[k] <= '9'
  }

  /** A non-decimal integer literal after its prefix: at least one digit of
      the radix, all digits of it, and one of them not zero. */
  predicate RadixPositive(ds: string, radix: char) {
    && ds != []
    && (forall k :: 0 <= k < |ds| ==> RadixDigit(ds[k], radix))
    && exists k :: 0 <= k < |ds| && ds[k] != '0'
  }

  /** An unsigned decimal literal with a positive value: `Infinity`, or
      digits with at most one `.` and an optional exponent, with a non-zero
      digit before the exponent. */
  predicate UnsignedPositive(u: string) {
    || u == "Infinity"
    || match ExponentMark(u, 0)
       case None => Mantissa(u) && HasNonZeroDigit(u)
       case Some(e) => Mantissa(u[..e]) && SignedDigits(u[e + 1..]) && HasNonZeroDigit(u[..e])
  }

  /** The first `e` or `E` at or after `from`. */
  function ExponentMark(u: string, from: nat): (r: Option<nat>)
    ensures r.Some? ==> from <= r.value < |u| && (u[r.value] == 'e' || u[r.value] == 'E')
    ensures r.Some? ==> forall k :: from <= k < r.value ==> u[k] != 'e' && u[k] != 'E'
    ensures r.None? ==> forall k :: from <= k < |u| ==> u[k] != 'e' && u[k] != 'E'
    decreases |u| - from
  {
    if from >= |u| then None
    else if u[from] == 'e' || u[from] == 'E' then Some(from)
    else ExponentMark(u, from + 1)
  }

  /** Digits with at most one `.`, and at least one digit. */
  predicate Mantissa(m: string) {
    match IndexOf(m, ".", 0)
    case None => m != [] && AllDigits(m)
    case Some(k) => |m| >= 2 && AllDigits(m[..k]) && AllDigits(m[k + 1..])
  }

  /** The digits of an exponent, with an optional sign. */
  predicate SignedDigits(x: string) {
    if x != [] && (x[0] == '+' || x[0] == '-') then |x| >= 2 && AllDigits(x[1..])
    else x != [] && AllDigits(x)
  }

  /** A non-empty digit string converts to a positive number exactly when
      one of its digits is not zero. */
  lemma DigitTextPositive(d: string)
    requires d != [] && AllDigits(d)
    ensures NumericTextPositive(d) <==> HasNonZeroDigit(d)
  {
    TrimOfNoSpace(d);
    assert IsDigit(d[0]);
    assert |d| >= 2 ==> d[1] !in "xXoObB" by {
      if |d| >= 2 {
        assert IsDigit(d[1]);
      }
    }
    assert NumericTextPositive(d) == UnsignedPositive(d);
    assert d != "Infinity" by {
      assert !IsDigit('I');
    }
    assert ExponentMark(d, 0).None? by {
      forall k | 0 <= k < |d| ensures d[k] != 'e' && d[k] != 'E' {
        assert IsDigit(d[k]);
      }
    }
    assert IndexOf(d, ".", 0).None? by {
      forall k | 0 <= k < |d| ensures d[k] != '.' {
        assert IsDigit(d[k]);
      }
      AbsentCharNotFound(d, '.');
    }
    assert Mantissa(d);
  }

  /** A digit string is its own trim. */
  lemma TrimOfNoSpace(d: string)
    requires AllDigits(d)
    ensures Trim(d) == d
  {
    if d != [] {
      assert IsDigit(d[0]) && IsDigit(d[|d| - 1]);
    }
    TrimUnspaced(d);
  }

  /** A `length` given as the decimal text of a natural number, whether as
      a number, a string or the only element of an array, is greater than
      zero exactly when the number is. */
  lemma DecimalLengthPositive(n: nat)
    ensures GreaterThanZero(JNumber(DecimalString(n))) <==> n > 0
    ensures GreaterThanZero(JString(DecimalString(n))) <==> n > 0
    ensures GreaterThanZero(JArray([JNumber(DecimalString(n))])) <==> n > 0
  {
    var d := DecimalString(n);
    DigitTextPositive(d);
    DecimalHasNonZeroDigit(n);
    LengthText(d);
  }

  /** A `length` given as the text `d`, as a number, a string or the only
      element of an array, compares with zero as `d` itself does. */
  lemma LengthText(d: string)
    ensures GreaterThanZero(JNumber(d)) == NumericTextPositive(d)
    ensures GreaterThanZero(JString(d)) == NumericTextPositive(d)
    ensures GreaterThanZero(JArray([JNumber(d)])) == NumericTextPositive(d)
  {
    assert Join([JNumber(d)], ",") == ElementText(JNumber(d)) == d;
  }

  /** The decimal text of `n` has a non-zero digit exactly when `n > 0`. */
  lemma DecimalHasNonZeroDigit(n: nat)
    ensures HasNonZeroDigit(DecimalString(n)) <==> n > 0
  {
    var d := DecimalString(n);
    if n == 0 {
      assert d == [DigitChar(0)];
    } else if n < 10 {
      assert d[0] == DigitChar(n);
    } else {
      assert IsDigit(d[0]) && d[0] != '0';
    }
  }
}
