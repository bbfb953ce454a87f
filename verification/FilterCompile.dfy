/**
 Compiling query conditions to native filters: inclusive ranges in which null is the smallest value,
 evaluated on the bytes of an object.
 */
module FilterCompile {
  import opened Bytes
  import opened LittleEndian
  import opened Deserializer
  import opened ObjectUpdate
  import opened Doubles
  import opened Conditions

  const MAX_BYTE: byte := 255
  const MAX_INT: i32 := TWO31 - 1
  const MAX_LONG: i64 := TWO63 - 1

  // ----- native filters

  /** Bounds on doubles are places, None for NaN; bounds on singles are patterns. */
  datatype NativeFilter =
    | NativeIsNull(property: Property)
    | IdBetween(lower: i64, upper: i64)
    | BoolBetween(property: Property, lowerBool: Option<bool>, upperBool: Option<bool>)
    | ByteBetween(property: Property, lower: i64, upper: i64)
    | IntBetween(property: Property, lower: i64, upper: i64)
    | LongBetween(property: Property, lower: i64, upper: i64)
    | FloatBetween(property: Property, lowerSingle: u32, upperSingle: u32)
    | DoubleBetween(property: Property, lowerPlace: Option<int>, upperPlace: Option<int>)
    | NativeNested(property: Property, filter: NativeFilter)
    | NativeAnd(filters: seq<NativeFilter>)
    | NativeOr(filters: seq<NativeFilter>)
    | NativeNot(filter: NativeFilter)
    | Static(value: bool)

  /** The order of `Option<bool>`: None, false, true. */
  function OptionRank(b: Option<bool>): nat {
    match b
    case None => 0
    case Some(x) => if x then 2 else 1
  }

  function ReadBool(v: Value): Option<bool> { if v.Boolean? then Some(v.b) else None }

  function ReadByte(v: Value): int { if v.Number? then v.n else 0 }

  function ReadInt(v: Value): int { if v.Number? then v.n else NULL_INT }

  function ReadLong(v: Value): int { if v.Number? then v.n else NULL_LONG }

  function ReadFloat(v: Value): u32 { if v.Real? && v.bits < TWO32 then v.bits else NULL_FLOAT }

  function ReadDouble(v: Value): Option<int> { if v.Real? && v.bits < TWO64 then Some(Rank(v.bits)) else None }

  predicate SingleBetween(lower: u32, v: u32, upper: u32) {
    && (IsNan32(lower) || (!IsNan32(v) && Place(lower) <= Place(v)))
    && (IsNan32(v) || (!IsNan32(upper) && Place(upper) >= Place(v)))
  }

  predicate PlaceBetween(lower: Option<int>, v: Option<int>, upper: Option<int>) {
    && (lower.None? || (v.Some? && lower.value <= v.value))
    && (v.None? || (upper.Some? && upper.value >= v.value))
  }

  /** A range on the value of its property. */
  predicate Accepts(n: NativeFilter, v: Value) {
    match n
    case NativeIsNull(_) => v == Null
    case IdBetween(lower, upper) => v.Number? && lower <= v.n <= upper
    case BoolBetween(_, lower, upper) => OptionRank(lower) <= OptionRank(ReadBool(v)) <= OptionRank(upper)
    case ByteBetween(_, lower, upper) => lower <= ReadByte(v) <= upper
    case IntBetween(_, lower, upper) => lower <= ReadInt(v) <= upper
    case LongBetween(_, lower, upper) => lower <= ReadLong(v) <= upper
    case FloatBetween(_, lower, upper) => SingleBetween(lower, ReadFloat(v), upper)
    case DoubleBetween(_, lower, upper) => PlaceBetween(lower, ReadDouble(v), upper)
    case _ => false
  }

  /**
   A value of a fixed size, or whether there is one of a variable size; a reader that panics does
   not get this far.
   */
  function ReadValue(p: Property, d: IsarDeserializer): Value {
    if p.dataType.IsDynamic() then
      (match d.Target(p.offset)
       case Ok(None) => Null
       case _ => Record([]))
    else
      match d.ReadScalar(p.dataType, p.offset)
      case Ok(v) => v
      case Panic => Null
  }

  /** `read_nested` */
  function ReadNested(p: Property, d: IsarDeserializer): Option<IsarDeserializer> {
    match d.Target(p.offset)
    case Ok(Some(block)) =>
      (match IsarDeserializer.FromBytes(block)
       case Ok(nested) => Some(nested)
       case Panic => None)
    case _ => None
  }

  predicate Evaluate(f: NativeFilter, id: i64, d: IsarDeserializer) {
    match f
    case IdBetween(_, _) => Accepts(f, Number(id))
    case NativeNested(p, g) =>
      var nested := ReadNested(p, d);
      nested.Some? && Evaluate(g, NULL_LONG, nested.value)
    case NativeAnd(fs) => forall i :: 0 <= i < |fs| ==> Evaluate(fs[i], id, d)
    case NativeOr(fs) => exists i :: 0 <= i < |fs| && Evaluate(fs[i], id, d)
    case NativeNot(g) => !Evaluate(g, id, d)
    case Static(b) => b
    case _ => Accepts(f, ReadValue(f.property, d))
  }

  // ----- compilation

  /** A bound as the native range needs it; the outer None aborts the condition. */
  function BoolBound(op: Operand): Option<Option<bool>> {
    match op
    case None => Some(None)
    case Some(BoolValue(b)) => Some(Some(b))
    case _ => None
  }

  function BoolAbove(b: Option<bool>): Option<Option<bool>> {
    match b
    case None => Some(Some(false))
    case Some(x) => if x then None else Some(Some(true))
  }

  function BoolBelow(b: Option<bool>): Option<Option<bool>> {
    match b
    case None => None
    case Some(x) => if x then Some(Some(false)) else Some(None)
  }

  function BoolRange(lower: Operand, includeLower: bool, upper: Operand, includeUpper: bool)
    : Option<(Option<bool>, Option<bool>)>
  {
    match (BoolBound(lower), BoolBound(upper))
    case (Some(l), Some(u)) =>
      (match (if includeLower then Some(l) else BoolAbove(l), if includeUpper then Some(u) else BoolBelow(u))
       case (Some(l'), Some(u')) => Some((l', u'))
       case _ => None)
    case _ => None
  }

  /** An integer operand that fits between `min` and `max`; null becomes `open`. */
  function IntegerBound(op: Operand, min: i64, max: i64, open: i64): Option<int> {
    match op
    case None => Some(open)
    case Some(IntegerValue(n)) => if min <= n <= max then Some(n) else None
    case _ => None
  }

  function CheckedAdd(n: int, max: i64): Option<int> { if n < max then Some(n + 1) else None }

  function CheckedSub(n: int, min: i64): Option<int> { if n > min then Some(n - 1) else None }

  /** The range of an integer condition; an open upper end is `top`. */
  function IntegerRange(lower: Operand, includeLower: bool, upper: Operand, includeUpper: bool,
                        min: i64, max: i64, top: i64): Option<(int, int)>
  {
    match (IntegerBound(lower, min, max, min), IntegerBound(upper, min, max, top))
    case (Some(l), Some(u)) =>
      (match (if includeLower then Some(l) else CheckedAdd(l, max),
              if includeUpper then Some(u) else CheckedSub(u, min))
       case (Some(l'), Some(u')) => Some((l', u'))
       case _ => None)
    case _ => None
  }

  /** A bound as a double and as the single it narrows to. */
  datatype RealBound = RealBound(place: Option<int>, single: u32)

  const NEGATIVE_INFINITY32: u32 := TWO31 + INFINITY32

  function RealOrNan(op: Operand): Option<RealBound> {
    match op
    case None => Some(RealBound(None, NULL_FLOAT))
    case Some(RealValue(d, s)) => Some(RealBound(RealOperand(op), s))
    case _ => None
  }

  function NextBound(b: RealBound): RealBound { RealBound(Some(SingleRank(NextUp(b.single))), NextUp(b.single)) }

  /** `lower_real` */
  function LowerReal(op: Operand, inclusive: bool): Option<RealBound> {
    match RealOrNan(op)
    case None => None
    case Some(b) =>
      if inclusive then Some(b)
      else if b.place == None then Some(RealBound(Some(0 - INFINITY), NEGATIVE_INFINITY32))
      else if b.place == Some(INFINITY) then None
      else Some(NextBound(b))
  }

  /** `upper_real`: the next larger single, as below. */
  function UpperReal(op: Operand, inclusive: bool): Option<RealBound> {
    match RealOrNan(op)
    case None => None
    case Some(b) =>
      if inclusive then Some(b)
      else if b.place == None then None
      else if b.place == Some(0 - INFINITY) then Some(RealBound(None, NULL_FLOAT))
      else Some(NextBound(b))
  }

  function RealRange(lower: Operand, includeLower: bool, upper: Operand, includeUpper: bool)
    : Option<(RealBound, RealBound)>
  {
    match (LowerReal(lower, includeLower), UpperReal(upper, includeUpper))
    case (Some(l), Some(u)) => Some((l, u))
    case _ => None
  }

  /** `native_between_filter` for ids and the types with values of a fixed size. */
  function NativeBetween(property: Option<Property>, lower: Operand, includeLower: bool, upper: Operand,
                         includeUpper: bool): Option<NativeFilter>
    requires IsScalar(property)
  {
    match property
    case None =>
      (match IntegerRange(lower, includeLower, upper, includeUpper, NULL_LONG, MAX_LONG, NULL_LONG)
       case Some((l, u)) => Some(IdBetween(l, u))
       case None => None)
    case Some(p) =>
      match p.dataType
      case Bool =>
        (match BoolRange(lower, includeLower, upper, includeUpper)
         case Some((l, u)) => Some(BoolBetween(p, l, u))
         case None => None)
      case Byte =>
        (match IntegerRange(lower, includeLower, upper, includeUpper, 0, MAX_BYTE, MAX_BYTE)
         case Some((l, u)) => Some(ByteBetween(p, l, u))
         case None => None)
      case Int =>
        (match IntegerRange(lower, includeLower, upper, includeUpper, NULL_INT, MAX_INT, NULL_INT)
         case Some((l, u)) => Some(IntBetween(p, l, u))
         case None => None)
      case Long =>
        (match IntegerRange(lower, includeLower, upper, includeUpper, NULL_LONG, MAX_LONG, NULL_LONG)
         case Some((l, u)) => Some(LongBetween(p, l, u))
         case None => None)
      case Float =>
        (match RealRange(lower, includeLower, upper, includeUpper)
         case Some((l, u)) => Some(FloatBetween(p, l.single, u.single))
         case None => None)
      case Double =>
        (match RealRange(lower, includeLower, upper, includeUpper)
         case Some((l, u)) => Some(DoubleBetween(p, l.place, u.place))
         case None => None)
  }

  /** An id, or a property whose values have a fixed size. */
  predicate IsScalar(property: Option<Property>) { property.Some? ==> !property.value.dataType.IsDynamic() }

  function GetMax(property: Option<Property>): Operand
    requires IsScalar(property)
  {
    match property
    case None => Some(IntegerValue(MAX_LONG))
    case Some(p) =>
      match p.dataType
      case Bool => Some(BoolValue(true))
      case Byte => Some(IntegerValue(MAX_BYTE))
      case Int => Some(IntegerValue(MAX_INT))
      case Long => Some(IntegerValue(MAX_LONG))
      case Float => Some(RealValue(INFINITY, INFINITY32))
      case Double => Some(RealValue(INFINITY, INFINITY32))
  }

  /** `condition_to_native` */
  function ConditionToNative(c: Condition, property: Option<Property>): Option<NativeFilter>
    requires c.conditionType.IsNull? || IsScalar(property)
  {
    if c.conditionType.IsNull? then
      if property.None? then None else Some(NativeIsNull(property.value))
    else if c.conditionType.Between? then
      if |c.values| < 2 then None else NativeBetween(property, c.values[0], true, c.values[1], true)
    else if |c.values| < 1 then None
    else OneOperand(c.conditionType, property, c.values[0])
  }

  /** The string conditions are constant false on properties that are no strings. */
  function OneOperand(t: ConditionType, property: Option<Property>, op: Operand): Option<NativeFilter>
    requires IsScalar(property)
  {
    match t
    case Equal => NativeBetween(property, op, true, op, true)
    case Greater => NativeBetween(property, op, false, GetMax(property), true)
    case GreaterOrEqual => NativeBetween(property, op, true, GetMax(property), true)
    case Less => NativeBetween(property, None, true, op, false)
    case LessOrEqual => NativeBetween(property, None, true, op, true)
    case _ => if IsString(op) && property.Some? then Some(Static(false)) else None
  }

  predicate IsString(op: Operand) { op.Some? && op.value.StringValue? }

  /**
   The filters considered here: conditions on ids and on values of a fixed size, the null test on all
   properties but embedded objects without a collection, and nested filters on objects.
   */
  predicate InScope(f: Filter, cols: seq<Collection>, props: seq<Property>) {
    match f
    case Cond(c) =>
      var property := GetProperty(props, c.propertyIndex);
      if c.conditionType.IsNull? then
        property.Some? && property.value.dataType == Object ==> EmbeddedIn(cols, property).Some?
      else
        IsScalar(property)
    case Nested(i, g) =>
      var property := GetProperty(props, i);
      property.Some? && property.value.embedded.Some? ==>
        EmbeddedIn(cols, property).Some? && InScope(g, cols, EmbeddedIn(cols, property).value.properties)
    case And(fs) => forall i :: 0 <= i < |fs| ==> InScope(fs[i], cols, props)
    case Or(fs) => forall i :: 0 <= i < |fs| ==> InScope(fs[i], cols, props)
    case Not(g) => InScope(g, cols, props)
  }

  /** `filter_to_native` */
  function FilterToNative(f: Filter, cols: seq<Collection>, props: seq<Property>): NativeFilter
    requires InScope(f, cols, props)
  {
    match f
    case Cond(c) =>
      (match ConditionToNative(c, GetProperty(props, c.propertyIndex))
       case Some(n) => n
       case None => Static(false))
    case Nested(i, g) =>
      var property := GetProperty(props, i);
      if property.Some? && property.value.embedded.Some? then
        NativeNested(property.value, FilterToNative(g, cols, EmbeddedIn(cols, property).value.properties))
      else
        Static(false)
    case And(fs) => NativeAnd(seq(|fs|, i requires 0 <= i < |fs| => FilterToNative(fs[i], cols, props)))
    case Or(fs) => NativeOr(seq(|fs|, i requires 0 <= i < |fs| => FilterToNative(fs[i], cols, props)))
    case Not(g) => NativeNot(FilterToNative(g, cols, props))
  }
}
