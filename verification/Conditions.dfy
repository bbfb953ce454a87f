/** Query conditions and their direct evaluation on JSON values, the reference for the compiled filters. */
module Conditions {
  import opened Bytes
  import opened LittleEndian
  import opened Deserializer
  import opened ObjectUpdate
  import opened Doubles

  datatype ConditionType =
    | IsNull | Equal | Greater | GreaterOrEqual | Less | LessOrEqual | Between
    | StringStartsWith | StringEndsWith | StringContains | StringMatches

  type Operand = Option<IsarValue>

  datatype Condition = Condition(propertyIndex: nat, conditionType: ConditionType, values: seq<Operand>)

  datatype Filter =
    | Cond(c: Condition)
    | Nested(propertyIndex: nat, filter: Filter)
    | And(filters: seq<Filter>)
    | Or(filters: seq<Filter>)
    | Not(filter: Filter)

  // ----- JSON values

  /** A real is given by its place among the doubles; JSON has no NaN. */
  datatype Json = JsonNull | JsonBool(b: bool) | JsonInteger(n: int) | JsonReal(place: int) | JsonOther

  /** The value of a property as JSON; without a property it is the id. */
  function ToJson(t: Option<DataType>, v: Value): Json {
    match v
    case Null => JsonNull
    case Boolean(b) => JsonBool(b)
    case Number(n) => JsonInteger(n)
    case Real(bits) =>
      if t == Some(Float) && bits < TWO32 then JsonReal(SingleRank(bits))
      else if bits < TWO64 then JsonReal(Rank(bits))
      else JsonOther
    case _ => JsonOther
  }

  /** `as_f64` */
  function AsReal(v: Json): Option<int> {
    match v
    case JsonInteger(n) => Some(IntegerRank(n))
    case JsonReal(place) => Some(place)
    case _ => None
  }

  /** A real operand that is a number. */
  function RealOperand(op: Operand): Option<int> {
    match op
    case Some(RealValue(d, _)) => if IsNan64(d) then None else Some(Rank(d))
    case _ => None
  }

  // ----- evaluation

  /** false < true. */
  function BoolRank(b: bool): int { if b then 1 else 0 }

  predicate JsonEqual(v: Json, op: Operand) {
    match (v, op)
    case (JsonNull, None) => true
    case (JsonBool(b), Some(BoolValue(c))) => b == c
    case (JsonInteger(n), Some(IntegerValue(m))) => n == m
    case (_, Some(RealValue(_, _))) => AsReal(v).Some? && AsReal(v) == RealOperand(op)
    case _ => false
  }

  predicate JsonGreater(v: Json, op: Operand) {
    match (v, op)
    case (_, None) => v != JsonNull
    case (JsonBool(b), Some(BoolValue(c))) => BoolRank(b) > BoolRank(c)
    case (JsonInteger(n), Some(IntegerValue(m))) => n > m
    case (_, Some(RealValue(_, _))) =>
      AsReal(v).Some? && RealOperand(op).Some? && AsReal(v).value > RealOperand(op).value
    case _ => false
  }

  predicate JsonGreaterOrEqual(v: Json, op: Operand) {
    match (v, op)
    case (_, None) => true
    case (JsonBool(b), Some(BoolValue(c))) => BoolRank(b) >= BoolRank(c)
    case (JsonInteger(n), Some(IntegerValue(m))) => n >= m
    case (_, Some(RealValue(_, _))) =>
      AsReal(v).Some? && RealOperand(op).Some? && AsReal(v).value >= RealOperand(op).value
    case _ => false
  }

  /** `as_i64` of a real is None, and None is below every integer. */
  predicate JsonLess(v: Json, op: Operand) {
    match (v, op)
    case (JsonNull, _) => op.Some?
    case (JsonBool(b), Some(BoolValue(c))) => BoolRank(b) < BoolRank(c)
    case (JsonInteger(n), Some(IntegerValue(m))) => n < m
    case (JsonReal(_), Some(IntegerValue(_))) => true
    case (_, Some(RealValue(_, _))) =>
      AsReal(v).Some? && RealOperand(op).Some? && AsReal(v).value < RealOperand(op).value
    case _ => false
  }

  predicate JsonLessOrEqual(v: Json, op: Operand) {
    match (v, op)
    case (JsonNull, _) => true
    case (JsonBool(b), Some(BoolValue(c))) => BoolRank(b) <= BoolRank(c)
    case (JsonInteger(n), Some(IntegerValue(m))) => n <= m
    case (JsonReal(_), Some(IntegerValue(_))) => true
    case (_, Some(RealValue(_, _))) =>
      AsReal(v).Some? && RealOperand(op).Some? && AsReal(v).value <= RealOperand(op).value
    case _ => false
  }

  /** A real against an integer operand, and the other way round for an id: one is below, the other converted. */
  lemma MixedNumbers(place: int, n: int, m: i64, op: Operand)
    ensures var v, k := JsonReal(place), Some(IntegerValue(m));
            && JsonLess(v, k) && JsonLessOrEqual(v, k)
            && !JsonEqual(v, k) && !JsonGreater(v, k) && !JsonGreaterOrEqual(v, k)
    ensures RealOperand(op).Some? ==>
              var v, r := JsonInteger(n), RealOperand(op).value;
              && (JsonEqual(v, op) <==> IntegerRank(n) == r)
              && (JsonLess(v, op) <==> !JsonGreaterOrEqual(v, op)) && (JsonGreater(v, op) <==> !JsonLessOrEqual(v, op))
              && (JsonLessOrEqual(v, op) <==> JsonLess(v, op) || JsonEqual(v, op))
  {
  }

  predicate JsonBetween(v: Json, lower: Operand, upper: Operand) {
    match (v, lower, upper)
    case (_, None, _) => JsonLessOrEqual(v, upper)
    case (JsonBool(b), Some(BoolValue(l)), Some(BoolValue(u))) => BoolRank(l) <= BoolRank(b) <= BoolRank(u)
    case (JsonInteger(n), Some(IntegerValue(l)), Some(IntegerValue(u))) => l <= n <= u
    case (_, Some(RealValue(_, _)), Some(RealValue(_, _))) =>
      && AsReal(v).Some? && RealOperand(lower).Some? && RealOperand(upper).Some?
      && RealOperand(lower).value <= AsReal(v).value <= RealOperand(upper).value
    case _ => false
  }

  predicate JsonOneOperand(t: ConditionType, v: Json, op: Operand) {
    match t
    case Equal => JsonEqual(v, op)
    case Greater => JsonGreater(v, op)
    case GreaterOrEqual => JsonGreaterOrEqual(v, op)
    case Less => JsonLess(v, op)
    case LessOrEqual => JsonLessOrEqual(v, op)
    case _ => false
  }

  /** `matches_value` for a value that is no list; no string is among the values considered here. */
  predicate MatchesValue(c: Condition, v: Json) {
    if c.conditionType.IsNull? then v == JsonNull
    else if c.conditionType.Between? then |c.values| >= 2 && JsonBetween(v, c.values[0], c.values[1])
    else |c.values| >= 1 && JsonOneOperand(c.conditionType, v, c.values[0])
  }

  // ----- trees

  function GetProperty(props: seq<Property>, index: nat): Option<Property> {
    if 0 < index <= |props| then Some(props[index - 1]) else None
  }

  function TypeOf(property: Option<Property>): Option<DataType> {
    if property.None? then None else Some(property.value.dataType)
  }

  /** The embedded collection of an object property. */
  function EmbeddedIn(cols: seq<Collection>, property: Option<Property>): Option<Collection> {
    match property
    case Some(p) =>
      if p.dataType == Object && p.embedded.Some? && p.embedded.value < |cols| then Some(cols[p.embedded.value])
      else None
    case None => None
  }

  /** The value a condition is about; the ids of embedded objects are all the smallest one. */
  function ValueAt(props: seq<Property>, id: i64, vals: seq<Value>, index: nat): Value
    requires |vals| == |props|
  {
    if 0 < index <= |props| then vals[index - 1] else Number(id)
  }

  /** Conditions one by one, on a record of values, combined by the connectives. */
  predicate Matches(f: Filter, cols: seq<Collection>, props: seq<Property>, id: i64, vals: seq<Value>)
    requires |vals| == |props|
  {
    match f
    case Cond(c) =>
      MatchesValue(c, ToJson(TypeOf(GetProperty(props, c.propertyIndex)), ValueAt(props, id, vals, c.propertyIndex)))
    case Nested(i, g) =>
      var target, v := EmbeddedIn(cols, GetProperty(props, i)), ValueAt(props, id, vals, i);
      && target.Some? && v.Record? && |v.fields| == |target.value.properties|
      && Matches(g, cols, target.value.properties, NULL_LONG, v.fields)
    case And(fs) => forall i :: 0 <= i < |fs| ==> Matches(fs[i], cols, props, id, vals)
    case Or(fs) => exists i :: 0 <= i < |fs| && Matches(fs[i], cols, props, id, vals)
    case Not(g) => !Matches(g, cols, props, id, vals)
  }
}
