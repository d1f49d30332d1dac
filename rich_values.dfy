/**
 * The rich-value encoder of the SQL tool: query parameters, given as a
 * dynamic JavaScript record, become a tagged `RichStruct` whose every field
 * is a `RichValue` naming its own kind.
 */
module RichValues {
  import opened Wrappers
  import opened Numerals

  // ---------------------------------------------------------------------------
  // JavaScript values

  /** A JavaScript number: a finite value, or one of the three special ones. */
  datatype Number = Finite(r: real) | NaN | PosInf | NegInf

  /** `Number.isInteger`: finite and without a fractional part. */
  predicate IsInteger(n: Number) {
    n.Finite? && n.r == n.r.Floor as real
  }

  /**
   * The values a parameter record can hold. A plain object keeps its own
   * enumerable entries in `Object.entries` order; a `Date` is known by the
   * text its `toISOString()` gives.
   */
  datatype JsValue =
    | JsNull
    | JsUndefined
    | JsNumber(n: Number)
    | JsBigInt(i: int)
    | JsString(s: string)
    | JsBool(b: bool)
    | JsDate(iso: string)
    | JsArray(elems: seq<JsValue>)
    | JsObject(entries: seq<Entry>)
    | JsFunction
    | JsSymbol

  datatype Entry = Entry(key: string, value: JsValue)

  /** The `typeof` operator. */
  function TypeOf(v: JsValue): string {
    match v
    case JsUndefined => "undefined"
    case JsNumber(_) => "number"
    case JsBigInt(_) => "bigint"
    case JsString(_) => "string"
    case JsBool(_) => "boolean"
    case JsFunction => "function"
    case JsSymbol => "symbol"
    case _ => "object"
  }

  // ---------------------------------------------------------------------------
  // Rich values

  const NULL_VALUE := "NULL_VALUE"

  /** A bigint as a sign flag and its `toString(16)` rendering. */
  datatype BigInteger = BigInteger(negative: bool, data: string)

  datatype RichValue =
    | NullValue(nullValue: string)
    | IntValue(intValue: int)
    | FloatValue(floatValue: Number)
    | BigintValue(bigintValue: BigInteger)
    | StringValue(stringValue: string)
    | BoolValue(boolValue: bool)
    | TimestampValue(timestampValue: string)
    | ListValue(values: seq<RichValue>)
    | StructValue(structValue: RichStruct)

  datatype RichStruct = RichStruct(fields: seq<RichField>)

  datatype RichField = RichField(key: string, value: RichValue)

  function UnsupportedMessage(v: JsValue): string {
    "Unsupported value type: " + TypeOf(v)
  }

  /** `toBigInteger(value)`. */
  function ToBigInteger(i: int): (b: BigInteger)
    ensures b.negative <==> i < 0
    ensures ParseInt(b.data, 16) == Some(i)
    ensures b.negative <==> b.data[0] == '-'
  {
    ParseIntToString(i, 16);
    BigInteger(i < 0, IntToString(i, 16))
  }

  /**
   * `toRichValue(value)`: null is checked first, then `typeof` decides;
   * arrays and plain objects are converted element by element, and the first
   * value of an unsupported type met on the way fails the whole conversion.
   */
  function ToRichValue(v: JsValue): Result<RichValue, string>
    decreases v, 1
  {
    match v
    case JsNull => Ok(NullValue(NULL_VALUE))
    case JsNumber(n) => if IsInteger(n) then Ok(IntValue(n.r.Floor)) else Ok(FloatValue(n))
    case JsBigInt(i) => Ok(BigintValue(ToBigInteger(i)))
    case JsString(s) => Ok(StringValue(s))
    case JsBool(b) => Ok(BoolValue(b))
    case JsDate(iso) => Ok(TimestampValue(iso))
    case JsArray(elems) =>
      var values :- ToRichList(elems);
      Ok(ListValue(values))
    case JsObject(entries) =>
      var fields :- ToRichFields(entries);
      Ok(StructValue(RichStruct(fields)))
    case _ => Err(UnsupportedMessage(v))
  }

  /** `value.map(v => toRichValue(v))`, left to right. */
  function ToRichList(vs: seq<JsValue>): Result<seq<RichValue>, string>
    decreases vs, 0
  {
    if vs == [] then Ok([])
    else
      var head :- ToRichValue(vs[0]);
      var tail :- ToRichList(vs[1..]);
      Ok([head] + tail)
  }

  /** `Object.entries(record).map(([key, value]) => [key, toRichValue(value)])`. */
  function ToRichFields(es: seq<Entry>): Result<seq<RichField>, string>
    decreases es, 0
  {
    if es == [] then Ok([])
    else
      var head :- ToRichValue(es[0].value);
      var tail :- ToRichFields(es[1..]);
      Ok([RichField(es[0].key, head)] + tail)
  }

  /** `toRichStruct(parameters)`: no record gives no struct. */
  function ToRichStruct(parameters: Option<seq<Entry>>): Result<Option<RichStruct>, string> {
    match parameters
    case None => Ok(None)
    case Some(es) =>
      var fields :- ToRichFields(es);
      Ok(Some(RichStruct(fields)))
  }

  // ---------------------------------------------------------------------------
  // Which values convert

  /** No `undefined`, function or symbol anywhere inside. */
  predicate Supported(v: JsValue)
    decreases v, 1
  {
    match v
    case JsUndefined => false
    case JsFunction => false
    case JsSymbol => false
    case JsArray(elems) => SupportedList(elems)
    case JsObject(entries) => SupportedEntries(entries)
    case _ => true
  }

  predicate SupportedList(vs: seq<JsValue>)
    decreases vs, 0
  {
    forall i :: 0 <= i < |vs| ==> Supported(vs[i])
  }

  predicate SupportedEntries(es: seq<Entry>)
    decreases es, 0
  {
    forall i :: 0 <= i < |es| ==> Supported(es[i].value)
  }

  /**
   * A value converts exactly when nothing inside it is unsupported; a failure
   * names the `typeof` of an unsupported value.
   */
  lemma {:induction false} ToRichValueOk(v: JsValue)
    ensures ToRichValue(v).Ok? <==> Supported(v)
    ensures ToRichValue(v).Err? ==>
              ToRichValue(v).error in {UnsupportedMessage(JsUndefined), UnsupportedMessage(JsFunction),
                                       UnsupportedMessage(JsSymbol)}
    decreases v, 1
  {
    match v
    case JsArray(elems) => ToRichListOk(elems);
    case JsObject(entries) => ToRichFieldsOk(entries);
    case _ =>
  }

  /**
   * The list converts exactly when every element does, into a list of the
   * same length whose elements are the elements' conversions in order.
   */
  lemma {:induction false} ToRichListOk(vs: seq<JsValue>)
    ensures ToRichList(vs).Ok? <==> SupportedList(vs)
    ensures ToRichList(vs).Ok? ==>
              |ToRichList(vs).value| == |vs|
              && forall i :: 0 <= i < |vs| ==> ToRichValue(vs[i]) == Ok(ToRichList(vs).value[i])
    ensures ToRichList(vs).Err? ==>
              ToRichList(vs).error in {UnsupportedMessage(JsUndefined), UnsupportedMessage(JsFunction),
                                       UnsupportedMessage(JsSymbol)}
    decreases vs, 0
  {
    if vs != [] {
      ToRichValueOk(vs[0]);
      ToRichListOk(vs[1..]);
      assert forall i :: 1 <= i < |vs| ==> vs[1..][i - 1] == vs[i];
    }
  }

  /**
   * The entries convert exactly when every value does, into fields with the
   * same keys in the same order, each holding its value's conversion.
   */
  lemma {:induction false} ToRichFieldsOk(es: seq<Entry>)
    ensures ToRichFields(es).Ok? <==> SupportedEntries(es)
    ensures ToRichFields(es).Ok? ==>
              |ToRichFields(es).value| == |es|
              && forall i :: 0 <= i < |es| ==>
                   ToRichFields(es).value[i].key == es[i].key
                   && ToRichValue(es[i].value) == Ok(ToRichFields(es).value[i].value)
    ensures ToRichFields(es).Err? ==>
              ToRichFields(es).error in {UnsupportedMessage(JsUndefined), UnsupportedMessage(JsFunction),
                                         UnsupportedMessage(JsSymbol)}
    decreases es, 0
  {
    if es != [] {
      ToRichValueOk(es[0].value);
      ToRichFieldsOk(es[1..]);
      assert forall i :: 1 <= i < |es| ==> es[1..][i - 1] == es[i];
    }
  }

  /**
   * A record converts into a struct with exactly its keys, in order, each
   * mapped through `toRichValue`; no record converts into no struct.
   */
  lemma ToRichStructFields(parameters: Option<seq<Entry>>)
    ensures parameters.None? ==> ToRichStruct(parameters) == Ok(None)
    ensures parameters.Some? ==>
              (ToRichStruct(parameters).Ok? <==> SupportedEntries(parameters.value))
    ensures parameters.Some? && ToRichStruct(parameters).Ok? ==>
              ToRichStruct(parameters).value.Some?
              && var fields := ToRichStruct(parameters).value.value.fields;
              |fields| == |parameters.value|
              && forall i :: 0 <= i < |fields| ==>
                   fields[i].key == parameters.value[i].key
                   && ToRichValue(parameters.value[i].value) == Ok(fields[i].value)
  {
    if parameters.Some? {
      ToRichFieldsOk(parameters.value);
    }
  }

  // ---------------------------------------------------------------------------
  // Reading a rich value back

  /** The bigint a `BigInteger` stands for. */
  function FromBigInteger(b: BigInteger): int {
    match ParseInt(b.data, 16)
    case Some(i) => i
    case None => 0
  }

  /** The JavaScript value a rich value describes. */
  function FromRichValue(r: RichValue): JsValue {
    match r
    case NullValue(_) => JsNull
    case IntValue(i) => JsNumber(Finite(i as real))
    case FloatValue(n) => JsNumber(n)
    case BigintValue(b) => JsBigInt(FromBigInteger(b))
    case StringValue(s) => JsString(s)
    case BoolValue(b) => JsBool(b)
    case TimestampValue(iso) => JsDate(iso)
    case ListValue(values) => JsArray(seq(|values|, i requires 0 <= i < |values| => FromRichValue(values[i])))
    case StructValue(st) =>
      JsObject(seq(|st.fields|, i requires 0 <= i < |st.fields| =>
        Entry(st.fields[i].key, FromRichValue(st.fields[i].value))))
  }

  /**
   * Nothing is lost: every value that converts is read back as itself, so
   * each kind maps to its own case, integers keep their value, bigints their
   * sign and magnitude, and lists and records their order and keys.
   */
  lemma {:induction false} RichValueRoundTrip(v: JsValue)
    requires ToRichValue(v).Ok?
    ensures FromRichValue(ToRichValue(v).value) == v
    decreases v
  {
    match v
    case JsNumber(n) =>
    case JsBigInt(i) =>
    case JsArray(elems) =>
      ToRichListOk(elems);
      var values := ToRichList(elems).value;
      forall i | 0 <= i < |elems|
        ensures FromRichValue(values[i]) == elems[i]
      {
        RichValueRoundTrip(elems[i]);
      }
    case JsObject(entries) =>
      ToRichFieldsOk(entries);
      var fields := ToRichFields(entries).value;
      forall i | 0 <= i < |entries|
        ensures Entry(fields[i].key, FromRichValue(fields[i].value)) == entries[i]
      {
        RichValueRoundTrip(entries[i].value);
      }
    case _ =>
  }

  /**
   * The case a value lands in: null as `NULL_VALUE` (never a struct), an
   * integer-valued number as `intValue` of that integer, any other number as
   * `floatValue`, and a struct only for a plain object.
   */
  lemma RichValueCases(v: JsValue)
    requires ToRichValue(v).Ok?
    ensures v.JsNull? <==> ToRichValue(v).value == NullValue(NULL_VALUE)
    ensures v.JsNumber? && IsInteger(v.n) <==> ToRichValue(v).value.IntValue?
    ensures ToRichValue(v).value.IntValue? ==> ToRichValue(v).value.intValue as real == v.n.r
    ensures v.JsNumber? && !IsInteger(v.n) <==> ToRichValue(v).value.FloatValue?
    ensures v.JsBigInt? <==> ToRichValue(v).value.BigintValue?
    ensures v.JsObject? <==> ToRichValue(v).value.StructValue?
    ensures v.JsArray? <==> ToRichValue(v).value.ListValue?
    ensures v.JsDate? <==> ToRichValue(v).value.TimestampValue?
  {
    RichValueRoundTrip(v);
  }
}
