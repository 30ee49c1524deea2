/**
 * The JavaScript values that flow through the engine: row cells are texts,
 * `null` (padding of outer joins) or `undefined` (a missing key); aggregates
 * produce numbers. Numbers are integers extended with NaN and the two
 * infinities. A Row is a field-name-to-value mapping.
 */
module JsValues {
  import opened Wrappers
  import opened JsText

  datatype Number = Finite(n: int) | NaN | PosInf | NegInf

  datatype Value = Str(s: string) | Num(x: Number) | Null | Undefined

  type Row = map<string, Value>

  /** Errors the engine raises. */
  datatype Error =
    | UnsupportedOperator(op: string)
    | UnsupportedJoinType(joinType: string)
    | MissingInsertValue
    | QueryExecution(cause: Error)

  /** `row[key]`: a key that is not present reads as `undefined`. */
  function Get(row: Row, key: string): (v: Value)
    ensures key !in row ==> v == Undefined
    ensures key in row ==> v == row[key]
  {
    if key in row then row[key] else Undefined
  }

  /** JavaScript truthiness. */
  predicate Truthy(v: Value) {
    match v
    case Str(s) => s != ""
    case Num(x) => x != NaN && x != Finite(0)
    case Null => false
    case Undefined => false
  }

  /** `a || b`. */
  function Or(a: Value, b: Value): (r: Value)
    ensures r == a || r == b
    ensures Truthy(a) ==> r == a
    ensures !Truthy(a) ==> r == b
  {
    if Truthy(a) then a else b
  }

  function NumberText(x: Number): string {
    match x
    case Finite(n) => IntToString(n)
    case NaN => "NaN"
    case PosInf => "Infinity"
    case NegInf => "-Infinity"
  }

  /** `String(v)`. */
  function ToText(v: Value): string {
    match v
    case Str(s) => s
    case Num(x) => NumberText(x)
    case Null => "null"
    case Undefined => "undefined"
  }

  /** How Array.prototype.join renders an element: `null` and `undefined` become empty. */
  function JoinText(v: Value): string {
    match v
    case Null => ""
    case Undefined => ""
    case _ => ToText(v)
  }

  /** `Number(s)` for a text: blank is 0, an integer literal or an infinity is read, anything else is NaN. */
  function TextToNumber(s: string): Number {
    var t := Trim(s);
    if t == "" then Finite(0)
    else if IsIntLiteral(t) then Finite(LiteralValue(t))
    else if t == "Infinity" || t == "+Infinity" then PosInf
    else if t == "-Infinity" then NegInf
    else NaN
  }

  /** `Number(v)`. */
  function ToNumber(v: Value): Number {
    match v
    case Str(s) => TextToNumber(s)
    case Num(x) => x
    case Null => Finite(0)
    case Undefined => NaN
  }

  /** The global `isNaN(v)`, which coerces with Number() first. */
  predicate IsNaN(v: Value) {
    ToNumber(v) == NaN
  }

  /** `parseFloat` on a text: leading white space, an optional sign, then "Infinity" or the longest digit prefix. */
  function ParseFloatText(s: string): Number {
    var (sign, body) := SignAndBody(TrimStart(s));
    if |body| >= 8 && body[..8] == "Infinity" then (if sign < 0 then NegInf else PosInf)
    else
      var n := DigitRun(body);
      if n == 0 then NaN else Finite(sign * DigitsValue(body[..n]))
  }

  /** `parseFloat(v)`, which reads `String(v)`. */
  function ParseFloat(v: Value): Number {
    ParseFloatText(ToText(v))
  }

  /** `parseInt(v)`, which reads `String(v)`; None stands for NaN. */
  function ParseInt(v: Value): Option<int> {
    ParseIntPrefix(ToText(v))
  }

  /** `===`: same kind and same content, except that NaN equals nothing. */
  predicate StrictEquals(a: Value, b: Value) {
    a == b && a != Num(NaN)
  }

  function Rank(x: Number): int
    requires x != NaN
  {
    match x
    case NegInf => 0
    case Finite(_) => 1
    case PosInf => 2
  }

  /** `<` on numbers: false whenever NaN is involved. */
  predicate NumberLess(x: Number, y: Number) {
    x != NaN && y != NaN &&
    (if x.Finite? && y.Finite? then x.n < y.n else Rank(x) < Rank(y))
  }

  /** `<=` on numbers: false whenever NaN is involved. */
  predicate NumberLessEq(x: Number, y: Number) {
    x != NaN && y != NaN && !NumberLess(y, x)
  }

  /** `a < b`: two texts compare by code units, anything else compares as numbers. */
  predicate LessThan(a: Value, b: Value) {
    if a.Str? && b.Str? then LexLess(a.s, b.s) else NumberLess(ToNumber(a), ToNumber(b))
  }

  /** `a <= b`: two texts compare by code units, anything else compares as numbers. */
  predicate LessOrEqual(a: Value, b: Value) {
    if a.Str? && b.Str? then !LexLess(b.s, a.s) else NumberLessEq(ToNumber(a), ToNumber(b))
  }

  /** `x + y` on numbers. */
  function NumberAdd(x: Number, y: Number): (r: Number)
    ensures x.Finite? && y.Finite? ==> r == Finite(x.n + y.n)
    ensures x == NaN || y == NaN ==> r == NaN
  {
    if x == NaN || y == NaN then NaN
    else if (x == PosInf && y == NegInf) || (x == NegInf && y == PosInf) then NaN
    else if x == PosInf || y == PosInf then PosInf
    else if x == NegInf || y == NegInf then NegInf
    else Finite(x.n + y.n)
  }

  /** `Math.min(x, y)`. */
  function NumberMin(x: Number, y: Number): (r: Number)
    ensures x == NaN || y == NaN ==> r == NaN
    ensures x != NaN && y != NaN ==> (r == x || r == y) && NumberLessEq(r, x) && NumberLessEq(r, y)
  {
    if x == NaN || y == NaN then NaN else if NumberLess(y, x) then y else x
  }

  /** `Math.max(x, y)`. */
  function NumberMax(x: Number, y: Number): (r: Number)
    ensures x == NaN || y == NaN ==> r == NaN
    ensures x != NaN && y != NaN ==> (r == x || r == y) && NumberLessEq(x, r) && NumberLessEq(y, r)
  {
    if x == NaN || y == NaN then NaN else if NumberLess(x, y) then y else x
  }

  /** Truthiness of a number kept in a running-aggregate slot. */
  predicate TruthyNumber(x: Number) {
    x != NaN && x != Finite(0)
  }

  /** `slot || fallback` for a running-aggregate slot that may not exist yet (`undefined`). */
  function SlotOr(slots: map<string, Number>, key: string, fallback: Number): (r: Number)
    ensures key in slots && TruthyNumber(slots[key]) ==> r == slots[key]
    ensures !(key in slots && TruthyNumber(slots[key])) ==> r == fallback
  {
    if key in slots && TruthyNumber(slots[key]) then slots[key] else fallback
  }

  /** Value of a running-aggregate slot as a row cell: `undefined` when the slot was never set. */
  function SlotValue(slots: map<string, Number>, key: string): Value {
    if key in slots then Num(slots[key]) else Undefined
  }

  // ---- Properties ----

  /** Away from "Infinity", parseFloat and parseInt read the same integer prefix. */
  lemma ParseFloatAgreesWithParseInt(s: string)
    requires var body := SignAndBody(TrimStart(s)).1; body == [] || body[0] != 'I'
    ensures ParseFloatText(s) == match ParseIntPrefix(s) case Some(k) => Finite(k) case None => NaN
  {
    var body := SignAndBody(TrimStart(s)).1;
    assert |body| >= 8 ==> body[..8][0] == body[0];
  }

  /** Integers written by toString are read back by parseFloat. */
  lemma ParseFloatOfInteger(n: int)
    ensures ParseFloat(Num(Finite(n))) == Finite(n)
  {
    IntToStringParses(n);
    ParseFloatAgreesWithParseInt(IntToString(n));
  }

  /** Strict equality between values of different kinds never holds. */
  lemma StrictEqualsNeedsSameKind(a: Value, b: Value)
    requires StrictEquals(a, b)
    ensures a.Str? == b.Str? && a.Num? == b.Num? && a.Null? == b.Null?
    ensures a.Num? ==> a.x != NaN
  {
  }

  /** `a < b` and `b < a` never both hold. */
  lemma LessThanAsymmetric(a: Value, b: Value)
    ensures !(LessThan(a, b) && LessThan(b, a))
  {
    if a.Str? && b.Str? {
      LexLessAsymmetric(a.s, b.s);
    }
  }
}
