/**
 Which operands a condition needs for its native filter to accept the same values as its evaluation on
 JSON: a test on the operands alone, type by type.
 */
module FilterSuitability {
  import opened Bytes
  import opened LittleEndian
  import opened KeyOrder
  import opened Deserializer
  import opened ObjectUpdate
  import opened Doubles
  import opened Conditions
  import opened FilterCompile

  /** The values a property of the type can have; ids are never null. */
  predicate HasType(t: Option<DataType>, v: Value) {
    match t
    case None => v.Number? && NULL_LONG <= v.n <= MAX_LONG
    case Some(Bool) => v == Null || v.Boolean?
    case Some(Byte) => v == Null || (v.Number? && 0 <= v.n <= MAX_BYTE)
    case Some(Int) => v == Null || (v.Number? && NULL_INT < v.n <= MAX_INT)
    case Some(Long) => v == Null || (v.Number? && NULL_LONG < v.n <= MAX_LONG)
    case Some(Float) => v == Null || (v.Real? && v.bits < TWO32 && !IsNan32(v.bits))
    case Some(Double) => v == Null || (v.Real? && v.bits < TWO64 && !IsNan64(v.bits))
    case _ => true
  }

  /** The single of a real operand is one the double can round to: none lies between them. */
  ghost predicate RoundsTo(d: u64, s: u32) {
    && (IsNan64(d) <==> IsNan32(s))
    && (!IsNan64(d) ==> forall t: u32 {:trigger SingleRank(t)} :: !IsNan32(t) ==>
          && (SingleRank(t) <= Rank(d) ==> Place(t) <= Place(s))
          && (SingleRank(t) >= Rank(d) ==> Place(t) >= Place(s)))
  }

  ghost predicate Rounded(op: Operand) {
    op.Some? && op.value.RealValue? ==> RoundsTo(op.value.double, op.value.single)
  }

  // ----- integers

  predicate IsInteger(op: Operand) { op.Some? && op.value.IntegerValue? }

  predicate IsReal(op: Operand) { op.Some? && op.value.RealValue? }

  /** An integer operand between two numbers. */
  predicate InRange(op: Operand, lo: int, hi: int) { IsInteger(op) && lo <= op.value.n <= hi }

  /** Some integer of the range equals a real operand, or lies between two, or above or below one. */
  predicate RealMeets(lower: Operand, upper: Operand, lo: int, hi: int)
    requires lo <= hi + 1
  {
    && RealOperand(lower).Some? && RealOperand(upper).Some?
    && Reaches(RealOperand(lower).value, RealOperand(upper).value, lo, hi)
  }

  predicate RealBelow(op: Operand, n: int) { RealOperand(op).Some? && RealOperand(op).value < IntegerRank(n) }

  predicate RealNotAbove(op: Operand, n: int) { RealOperand(op).Some? && RealOperand(op).value <= IntegerRank(n) }

  predicate RealAbove(op: Operand, n: int) { RealOperand(op).Some? && RealOperand(op).value > IntegerRank(n) }

  predicate RealNotBelow(op: Operand, n: int) { RealOperand(op).Some? && RealOperand(op).value >= IntegerRank(n) }

  /** Int and long properties; `min` is the null sentinel. */
  predicate SuitableInteger(t: ConditionType, op: Operand, min: i64, max: i64)
    requires min < max
  {
    match t
    case Equal => op != Some(IntegerValue(min)) && !RealMeets(op, op, min + 1, max)
    case Greater => !InRange(op, NULL_LONG, min - 1) && !RealBelow(op, max)
    case GreaterOrEqual => !InRange(op, NULL_LONG, min) && !RealNotAbove(op, max)
    case Less => op.None? || InRange(op, min + 1, max)
    case LessOrEqual => op.None? || InRange(op, min, max)
    case _ => true
  }

  predicate SuitableIntegers(lower: Operand, upper: Operand, min: i64, max: i64)
    requires min < max
  {
    match (lower, upper)
    case (None, _) => upper.None? || InRange(upper, min, max)
    case (Some(IntegerValue(l)), None) => l != min
    case (Some(IntegerValue(l)), Some(IntegerValue(u))) =>
      if l < min then u <= min else if l == min then u < min else l <= max ==> u <= max
    case _ => !RealMeets(lower, upper, min + 1, max)
  }

  /** Bytes have no null of their own; a missing one is taken for 0. */
  predicate SuitableByte(t: ConditionType, op: Operand) {
    match t
    case Equal => op.Some? && op != Some(IntegerValue(0)) && !RealMeets(op, op, 0, MAX_BYTE)
    case Greater => op.Some? && !InRange(op, NULL_LONG, -1) && !RealBelow(op, MAX_BYTE)
    case GreaterOrEqual => !InRange(op, NULL_LONG, 0) && !RealNotAbove(op, MAX_BYTE)
    case Less => InRange(op, 1, MAX_BYTE)
    case LessOrEqual => InRange(op, 0, MAX_BYTE)
    case _ => true
  }

  predicate SuitableBytes(lower: Operand, upper: Operand) {
    match (lower, upper)
    case (None, _) => InRange(upper, 0, MAX_BYTE)
    case (Some(IntegerValue(l)), None) => !(0 <= l <= MAX_BYTE)
    case (Some(IntegerValue(l)), Some(IntegerValue(u))) =>
      l > u || u < 0 || l > MAX_BYTE || 0 < l <= u <= MAX_BYTE
    case _ => !RealMeets(lower, upper, 0, MAX_BYTE)
  }

  /** On ids, where nothing is null, null operands are out of place in most conditions. */
  predicate SuitableId(t: ConditionType, op: Operand) {
    match t
    case Equal => op.Some? && !RealMeets(op, op, NULL_LONG, MAX_LONG)
    case Greater => op.Some? && !RealBelow(op, MAX_LONG)
    case GreaterOrEqual => !RealNotAbove(op, MAX_LONG)
    case Less => !RealAbove(op, NULL_LONG)
    case LessOrEqual => op.Some? && !RealNotBelow(op, NULL_LONG)
    case _ => true
  }

  predicate SuitableIds(lower: Operand, upper: Operand) {
    match (lower, upper)
    case (None, _) => upper.Some? && !RealNotBelow(upper, NULL_LONG)
    case (_, None) => lower != Some(IntegerValue(NULL_LONG))
    case _ => !RealMeets(lower, upper, NULL_LONG, MAX_LONG)
  }

  // ----- bools and reals

  predicate SuitableBool(t: ConditionType, op: Operand) {
    t.Less? || t.LessOrEqual? ==> BoolBound(op).Some?
  }

  predicate IsNanOperand(op: Operand) { IsReal(op) && IsNan64(op.value.double) }

  /** The places of a real operand and of its single. */
  function DoublePlace(op: Operand): int { if IsReal(op) then Rank(op.value.double) else 0 }

  function SinglePlace(op: Operand): int { if IsReal(op) then SingleRank(op.value.single) else 0 }

  /** Greater than a double: the next single has to be the next double. Less is right only where nothing is less. */
  predicate SuitableDouble(t: ConditionType, op: Operand) {
    match t
    case Equal => !IsNanOperand(op)
    case Greater =>
      IsReal(op) ==> && !IsNan64(op.value.double)
                     && (DoublePlace(op) == INFINITY || SingleRank(NextUp(op.value.single)) == DoublePlace(op) + 1)
    case GreaterOrEqual => !IsNanOperand(op)
    case Less => op.None? || (IsReal(op) && !IsNan64(op.value.double) && DoublePlace(op) == 0 - INFINITY)
    case LessOrEqual => op.None? || IsReal(op)
    case _ => true
  }

  predicate SuitableDoubles(lower: Operand, upper: Operand) {
    match (lower, upper)
    case (None, _) => upper.None? || IsReal(upper)
    case (_, None) => !IsNanOperand(lower)
    case _ => IsReal(upper) ==> !IsNanOperand(lower)
  }

  /** Singles are compared after rounding the operand: it has to round the right way. */
  predicate SuitableFloat(t: ConditionType, op: Operand) {
    match t
    case Equal => IsReal(op) ==> !IsNan64(op.value.double) && SinglePlace(op) == DoublePlace(op)
    case Greater =>
      IsReal(op) ==> && !IsNan64(op.value.double)
                     && (op.value.single == INFINITY32 || SinglePlace(op) <= DoublePlace(op))
    case GreaterOrEqual => IsReal(op) ==> !IsNan64(op.value.double) && SinglePlace(op) >= DoublePlace(op)
    case Less => op.None? || (IsReal(op) && !IsNan64(op.value.double) && DoublePlace(op) == 0 - INFINITY)
    case LessOrEqual => op.None? || (IsReal(op) && (IsNan64(op.value.double) || SinglePlace(op) <= DoublePlace(op)))
    case _ => true
  }

  predicate SuitableFloats(lower: Operand, upper: Operand) {
    match (lower, upper)
    case (None, _) => SuitableFloat(LessOrEqual, upper)
    case (_, None) => !IsNanOperand(lower)
    case _ =>
      IsReal(lower) && IsReal(upper) ==>
        && !IsNanOperand(lower)
        && (|| IsNanOperand(upper)
            || SinglePlace(upper) < SinglePlace(lower)
            || (SinglePlace(lower) >= DoublePlace(lower) && SinglePlace(upper) <= DoublePlace(upper)))
  }

  // ----- conditions

  predicate SuitableOne(t: ConditionType, property: Option<Property>, op: Operand)
    requires IsScalar(property)
  {
    match TypeOf(property)
    case None => SuitableId(t, op)
    case Some(Bool) => SuitableBool(t, op)
    case Some(Byte) => SuitableByte(t, op)
    case Some(Int) => SuitableInteger(t, op, NULL_INT, MAX_INT)
    case Some(Long) => SuitableInteger(t, op, NULL_LONG, MAX_LONG)
    case Some(Float) => SuitableFloat(t, op)
    case Some(Double) => SuitableDouble(t, op)
  }

  predicate SuitableTwo(property: Option<Property>, lower: Operand, upper: Operand)
    requires IsScalar(property)
  {
    match TypeOf(property)
    case None => SuitableIds(lower, upper)
    case Some(Bool) => lower.None? ==> BoolBound(upper).Some?
    case Some(Byte) => SuitableBytes(lower, upper)
    case Some(Int) => SuitableIntegers(lower, upper, NULL_INT, MAX_INT)
    case Some(Long) => SuitableIntegers(lower, upper, NULL_LONG, MAX_LONG)
    case Some(Float) => SuitableFloats(lower, upper)
    case Some(Double) => SuitableDoubles(lower, upper)
  }

  predicate Suitable(c: Condition, property: Option<Property>)
    requires c.conditionType.IsNull? || IsScalar(property)
  {
    if c.conditionType.IsNull? then true
    else if c.conditionType.Between? then |c.values| >= 2 ==> SuitableTwo(property, c.values[0], c.values[1])
    else |c.values| >= 1 ==> SuitableOne(c.conditionType, property, c.values[0])
  }

  // ----- one operand

  predicate OneAgrees(t: ConditionType, property: Option<Property>, op: Operand, v: Value)
    requires IsScalar(property)
  {
    var n := OneOperand(t, property, op);
    (n.Some? && Accepts(n.value, v)) <==> JsonOneOperand(t, ToJson(TypeOf(property), v), op)
  }

  predicate TwoAgrees(property: Option<Property>, lower: Operand, upper: Operand, v: Value)
    requires IsScalar(property)
  {
    var n := NativeBetween(property, lower, true, upper, true);
    (n.Some? && Accepts(n.value, v)) <==> JsonBetween(ToJson(TypeOf(property), v), lower, upper)
  }

  /** What is to be known of the places of the integers in a range. */
  lemma PlacesOf(n: int, lo: int, hi: int, lower: Operand, upper: Operand)
    requires lo <= n <= hi
    ensures IntegerRank(lo) <= IntegerRank(n) <= IntegerRank(hi)
    ensures RealOperand(lower).Some? && RealOperand(upper).Some? && !RealMeets(lower, upper, lo, hi) ==>
              !(RealOperand(lower).value <= IntegerRank(n) <= RealOperand(upper).value)
  {
    IntegerRankGrows(lo, n);
    IntegerRankGrows(n, hi);
    if RealOperand(lower).Some? && RealOperand(upper).Some? {
      ReachesExactly(RealOperand(lower).value, RealOperand(upper).value, lo, hi);
    }
  }

  function LowestOf(t: Option<DataType>): int {
    match t
    case Some(Byte) => 0
    case Some(Int) => NULL_INT + 1
    case Some(Long) => NULL_LONG + 1
    case _ => NULL_LONG
  }

  function HighestOf(t: Option<DataType>): int {
    match t
    case Some(Byte) => MAX_BYTE
    case Some(Int) => MAX_INT
    case _ => MAX_LONG
  }

  predicate IsIntegral(t: Option<DataType>) { t in {None, Some(Byte), Some(Int), Some(Long)} }

  /** A real operand on an integral property aborts the native filter. */
  lemma RealOnIntegral(t: ConditionType, property: Option<Property>, op: Operand, v: Value)
    requires IsScalar(property) && IsIntegral(TypeOf(property)) && HasType(TypeOf(property), v) && IsReal(op)
    ensures OneOperand(t, property, op) == None
    ensures JsonOneOperand(t, ToJson(TypeOf(property), v), op) <==>
              if v == Null then t.Less? || t.LessOrEqual?
              else RealOperand(op).Some? && match t {
                     case Equal => IntegerRank(v.n) == RealOperand(op).value
                     case Greater => IntegerRank(v.n) > RealOperand(op).value
                     case GreaterOrEqual => IntegerRank(v.n) >= RealOperand(op).value
                     case Less => IntegerRank(v.n) < RealOperand(op).value
                     case LessOrEqual => IntegerRank(v.n) <= RealOperand(op).value
                     case _ => false
                   }
  {
  }

  lemma RealSuffices(t: ConditionType, property: Option<Property>, op: Operand, v: Value)
    requires IsScalar(property) && IsIntegral(TypeOf(property)) && HasType(TypeOf(property), v) && IsReal(op)
    requires SuitableOne(t, property, op)
    ensures OneAgrees(t, property, op, v)
  {
    RealOnIntegral(t, property, op, v);
    if v.Number? { PlacesOf(v.n, LowestOf(TypeOf(property)), HighestOf(TypeOf(property)), op, op); }
  }

  lemma IdSuffices(t: ConditionType, op: Operand, v: Value)
    requires HasType(None, v) && SuitableId(t, op) && !IsReal(op)
    ensures OneAgrees(t, None, op, v)
  {
  }

  lemma ByteSuffices(t: ConditionType, p: Property, op: Operand, v: Value)
    requires p.dataType == Byte && HasType(Some(Byte), v) && SuitableByte(t, op) && !IsReal(op)
    ensures OneAgrees(t, Some(p), op, v)
  {
  }

  lemma IntSuffices(t: ConditionType, p: Property, op: Operand, v: Value)
    requires p.dataType == Int && HasType(Some(Int), v) && SuitableInteger(t, op, NULL_INT, MAX_INT) && !IsReal(op)
    ensures OneAgrees(t, Some(p), op, v)
  {
  }

  lemma LongSuffices(t: ConditionType, p: Property, op: Operand, v: Value)
    requires p.dataType == Long && HasType(Some(Long), v) && SuitableInteger(t, op, NULL_LONG, MAX_LONG) && !IsReal(op)
    ensures OneAgrees(t, Some(p), op, v)
  {
  }

  lemma BoolSuffices(t: ConditionType, p: Property, op: Operand, v: Value)
    requires p.dataType == Bool && HasType(Some(Bool), v) && SuitableBool(t, op)
    ensures OneAgrees(t, Some(p), op, v)
  {
  }

  /** The range of a condition on doubles with a real operand that is a number. */
  lemma DoubleNative(t: ConditionType, p: Property, op: Operand, v: u64, next: int)
    requires p.dataType == Double && RealOperand(op).Some? && !IsNan64(v) && next == SingleRank(NextUp(op.value.single))
    ensures var n, r := OneOperand(t, Some(p), op), RealOperand(op).value;
            (n.Some? && Accepts(n.value, Real(v))) <==>
              match t {
                case Equal => Rank(v) == r
                case Greater => r != INFINITY && Rank(v) >= next
                case GreaterOrEqual => Rank(v) >= r
                case Less => r != 0 - INFINITY && Rank(v) <= next
                case LessOrEqual => Rank(v) <= r
                case _ => false
              }
  {
  }

  /** The other cases: no value, or an operand that is no number. */
  lemma DoubleOther(t: ConditionType, p: Property, op: Operand, v: Value)
    requires p.dataType == Double && HasType(Some(Double), v) && SuitableDouble(t, op)
    requires v == Null || RealOperand(op).None?
    ensures OneAgrees(t, Some(p), op, v)
  {
  }

  lemma DoubleReal(t: ConditionType, p: Property, op: Operand, v: u64)
    requires p.dataType == Double && RealOperand(op).Some? && !IsNan64(v) && SuitableDouble(t, op)
    ensures OneAgrees(t, Some(p), op, Real(v))
  {
    DoubleNative(t, p, op, v, SingleRank(NextUp(op.value.single)));
  }

  lemma DoubleSuffices(t: ConditionType, p: Property, op: Operand, v: Value)
    requires p.dataType == Double && HasType(Some(Double), v) && SuitableDouble(t, op) && Rounded(op)
    ensures OneAgrees(t, Some(p), op, v)
  {
    if v == Null || RealOperand(op).None? {
      DoubleOther(t, p, op, v);
    } else {
      DoubleReal(t, p, op, v.bits);
    }
  }

  /** How a single compares with the single of an operand says how it compares with the operand. */
  lemma SingleAgainst(v: u32, d: u64, s: u32)
    requires !IsNan32(v) && !IsNan64(d) && RoundsTo(d, s)
    ensures Place(v) < Place(s) ==> SingleRank(v) < Rank(d)
    ensures Place(v) > Place(s) ==> SingleRank(v) > Rank(d)
    ensures CompareInt(SingleRank(v), SingleRank(s)) == CompareInt(Place(v), Place(s))
    ensures s != INFINITY32 ==> Place(NextUp(s)) == Place(s) + 1 && !IsNan32(NextUp(s))
    ensures Place(v) <= INFINITY32
  {
    SinglesCompare(v, s);
    if s != INFINITY32 { NextUpIsNext(s); }
  }

  /** The range of a condition on singles with a real operand that is a number. */
  lemma FloatNative(t: ConditionType, p: Property, op: Operand, v: u32)
    requires p.dataType == Float && IsReal(op) && !IsNan64(op.value.double) && !IsNan32(op.value.single) && !IsNan32(v)
    requires op.value.single != INFINITY32 ==> !IsNan32(NextUp(op.value.single))
    requires Place(v) <= INFINITY32
    ensures var n, s := OneOperand(t, Some(p), op), op.value.single;
            (n.Some? && Accepts(n.value, Real(v))) <==>
              match t {
                case Equal => Place(v) == Place(s)
                case Greater => Rank(op.value.double) != INFINITY && Place(v) >= Place(NextUp(s))
                case GreaterOrEqual => Place(v) >= Place(s)
                case Less => Rank(op.value.double) != 0 - INFINITY && Place(v) <= Place(NextUp(s))
                case LessOrEqual => Place(v) <= Place(s)
                case _ => false
              }
  {
  }

  lemma FloatNull(t: ConditionType, p: Property, op: Operand)
    requires p.dataType == Float && SuitableFloat(t, op) && Rounded(op)
    ensures OneAgrees(t, Some(p), op, Null)
  {
    if RealOperand(op).Some? {
      if op.value.single != INFINITY32 { NextUpIsNext(op.value.single); }
      FloatNullReal(t, p, op);
    }
  }

  /** A real operand that is a number: the lower bound of the range is one, or there is none and null is smaller. */
  lemma FloatNullReal(t: ConditionType, p: Property, op: Operand)
    requires p.dataType == Float && RealOperand(op).Some? && !IsNan32(op.value.single)
    requires op.value.single != INFINITY32 ==> !IsNan32(NextUp(op.value.single))
    ensures OneAgrees(t, Some(p), op, Null)
  {
  }

  lemma FloatOther(t: ConditionType, p: Property, op: Operand, v: u32)
    requires p.dataType == Float && SuitableFloat(t, op) && Rounded(op) && !IsNan32(v)
    requires !IsReal(op) || IsNan64(op.value.double)
    ensures OneAgrees(t, Some(p), op, Real(v))
  {
  }

  /** The comparison with the operand, through the one with its single. */
  lemma FloatReal(t: ConditionType, op: Operand, v: u32)
    requires IsReal(op) && !IsNan64(op.value.double) && Rounded(op) && SuitableFloat(t, op) && !IsNan32(v)
    ensures var d, s := op.value.double, op.value.single;
            JsonOneOperand(t, JsonReal(SingleRank(v)), op) <==>
              match t {
                case Equal => Place(v) == Place(s)
                case Greater => Rank(d) != INFINITY && Place(v) >= Place(NextUp(s))
                case GreaterOrEqual => Place(v) >= Place(s)
                case Less => Rank(d) != 0 - INFINITY && Place(v) <= Place(NextUp(s))
                case LessOrEqual => Place(v) <= Place(s)
                case _ => false
              }
  {
    SingleAgainst(v, op.value.double, op.value.single);
    SingleEnds(v);
    SingleEnds(op.value.single);
  }

  /** No single is beyond the infinities. */
  lemma SingleEnds(v: u32)
    requires !IsNan32(v)
    ensures 0 - INFINITY <= SingleRank(v) <= INFINITY
    ensures SingleRank(v) == INFINITY <==> v == INFINITY32
  {
    var m := if v < TWO31 then v else v - TWO31;
    if 0 < m < INFINITY32 { WidenedGrows(m, INFINITY32); }
    if 0 < m { WidenedGrows(0, m); }
  }

  lemma FloatSuffices(t: ConditionType, p: Property, op: Operand, v: Value)
    requires p.dataType == Float && HasType(Some(Float), v) && SuitableFloat(t, op) && Rounded(op)
    ensures OneAgrees(t, Some(p), op, v)
  {
    if v == Null {
      FloatNull(t, p, op);
    } else if !IsReal(op) || IsNan64(op.value.double) {
      FloatOther(t, p, op, v.bits);
    } else {
      SingleAgainst(v.bits, op.value.double, op.value.single);
      FloatNative(t, p, op, v.bits);
      FloatReal(t, op, v.bits);
    }
  }

  lemma OneSuffices(t: ConditionType, property: Option<Property>, op: Operand, v: Value)
    requires IsScalar(property) && HasType(TypeOf(property), v) && SuitableOne(t, property, op) && Rounded(op)
    ensures OneAgrees(t, property, op, v)
  {
    if IsIntegral(TypeOf(property)) && IsReal(op) {
      RealSuffices(t, property, op, v);
    } else {
      match TypeOf(property)
      case None => IdSuffices(t, op, v);
      case Some(Bool) => BoolSuffices(t, property.value, op, v);
      case Some(Byte) => ByteSuffices(t, property.value, op, v);
      case Some(Int) => IntSuffices(t, property.value, op, v);
      case Some(Long) => LongSuffices(t, property.value, op, v);
      case Some(Float) => FloatSuffices(t, property.value, op, v);
      case Some(Double) => DoubleSuffices(t, property.value, op, v);
    }
  }

  // ----- two operands

  /** Two real operands on an integral property abort the native filter. */
  lemma RealsOnIntegral(property: Option<Property>, lower: Operand, upper: Operand, v: Value)
    requires IsScalar(property) && IsIntegral(TypeOf(property)) && HasType(TypeOf(property), v)
    requires IsReal(lower) && IsReal(upper)
    ensures NativeBetween(property, lower, true, upper, true) == None
    ensures JsonBetween(ToJson(TypeOf(property), v), lower, upper) <==>
              && v.Number? && RealOperand(lower).Some? && RealOperand(upper).Some?
              && RealOperand(lower).value <= IntegerRank(v.n) <= RealOperand(upper).value
  {
  }

  lemma IdsSuffice(lower: Operand, upper: Operand, v: Value)
    requires HasType(None, v) && SuitableIds(lower, upper)
    ensures TwoAgrees(None, lower, upper, v)
  {
    PlacesOf(v.n, NULL_LONG, MAX_LONG, lower, upper);
  }

  lemma BytesSuffice(p: Property, lower: Operand, upper: Operand, v: Value)
    requires p.dataType == Byte && HasType(Some(Byte), v) && SuitableBytes(lower, upper)
    ensures TwoAgrees(Some(p), lower, upper, v)
  {
    if v.Number? { PlacesOf(v.n, 0, MAX_BYTE, lower, upper); }
  }

  lemma IntsSuffice(p: Property, lower: Operand, upper: Operand, v: Value)
    requires p.dataType == Int && HasType(Some(Int), v) && SuitableIntegers(lower, upper, NULL_INT, MAX_INT)
    ensures TwoAgrees(Some(p), lower, upper, v)
  {
    if v.Number? { PlacesOf(v.n, NULL_INT + 1, MAX_INT, lower, upper); }
  }

  lemma LongsSuffice(p: Property, lower: Operand, upper: Operand, v: Value)
    requires p.dataType == Long && HasType(Some(Long), v) && SuitableIntegers(lower, upper, NULL_LONG, MAX_LONG)
    ensures TwoAgrees(Some(p), lower, upper, v)
  {
    if v.Number? { PlacesOf(v.n, NULL_LONG + 1, MAX_LONG, lower, upper); }
  }

  lemma BoolsSuffice(p: Property, lower: Operand, upper: Operand, v: Value)
    requires p.dataType == Bool && HasType(Some(Bool), v) && (lower.None? ==> BoolBound(upper).Some?)
    ensures TwoAgrees(Some(p), lower, upper, v)
  {
  }

  lemma DoublesSuffice(p: Property, lower: Operand, upper: Operand, v: Value)
    requires p.dataType == Double && HasType(Some(Double), v) && SuitableDoubles(lower, upper)
    ensures TwoAgrees(Some(p), lower, upper, v)
  {
  }

  /** The range of two real operands that are numbers. */
  lemma FloatsNative(p: Property, lower: Operand, upper: Operand, v: u32)
    requires p.dataType == Float && IsReal(lower) && IsReal(upper) && !IsNan32(v)
    requires !IsNan32(lower.value.single) && !IsNan32(upper.value.single)
    ensures var n := NativeBetween(Some(p), lower, true, upper, true);
            (n.Some? && Accepts(n.value, Real(v)))
            <==> Place(lower.value.single) <= Place(v) <= Place(upper.value.single)
  {
  }

  lemma FloatsReal(lower: Operand, upper: Operand, v: u32)
    requires IsReal(lower) && IsReal(upper) && !IsNan64(lower.value.double) && !IsNan64(upper.value.double)
    requires Rounded(lower) && Rounded(upper) && SuitableFloats(lower, upper) && !IsNan32(v)
    ensures JsonBetween(JsonReal(SingleRank(v)), lower, upper)
       <==> Place(lower.value.single) <= Place(v) <= Place(upper.value.single)
  {
    SingleAgainst(v, lower.value.double, lower.value.single);
    SingleAgainst(v, upper.value.double, upper.value.single);
    SinglesCompare(lower.value.single, upper.value.single);
  }

  lemma FloatsOther(p: Property, lower: Operand, upper: Operand, v: Value)
    requires p.dataType == Float && HasType(Some(Float), v) && SuitableFloats(lower, upper)
    requires lower.Some? && Rounded(lower) && Rounded(upper)
    requires v == Null || RealOperand(lower).None? || RealOperand(upper).None?
    ensures TwoAgrees(Some(p), lower, upper, v)
  {
  }

  lemma FloatsSuffice(p: Property, lower: Operand, upper: Operand, v: Value)
    requires p.dataType == Float && HasType(Some(Float), v) && SuitableFloats(lower, upper)
    requires Rounded(lower) && Rounded(upper)
    ensures TwoAgrees(Some(p), lower, upper, v)
  {
    if lower.None? {
      FloatSuffices(LessOrEqual, p, upper, v);
    } else if v == Null || RealOperand(lower).None? || RealOperand(upper).None? {
      FloatsOther(p, lower, upper, v);
    } else {
      FloatsNative(p, lower, upper, v.bits);
      FloatsReal(lower, upper, v.bits);
    }
  }

  lemma TwoSuffices(property: Option<Property>, lower: Operand, upper: Operand, v: Value)
    requires IsScalar(property) && HasType(TypeOf(property), v) && SuitableTwo(property, lower, upper)
    requires Rounded(lower) && Rounded(upper)
    ensures TwoAgrees(property, lower, upper, v)
  {
    match TypeOf(property)
    case None => IdsSuffice(lower, upper, v);
    case Some(Bool) => BoolsSuffice(property.value, lower, upper, v);
    case Some(Byte) => BytesSuffice(property.value, lower, upper, v);
    case Some(Int) => IntsSuffice(property.value, lower, upper, v);
    case Some(Long) => LongsSuffice(property.value, lower, upper, v);
    case Some(Float) => FloatsSuffice(property.value, lower, upper, v);
    case Some(Double) => DoublesSuffice(property.value, lower, upper, v);
  }

  // ----- a value on which an unsuitable condition goes wrong

  /** The first integer that lies, as a double, between two real operands. */
  function Between(t: Option<DataType>, lower: Operand, upper: Operand): Value
    requires IsIntegral(t)
  {
    if RealOperand(lower).Some? then Number(First(RealOperand(lower).value, LowestOf(t), HighestOf(t)))
    else Number(LowestOf(t))
  }

  function IntegralWitness(t: ConditionType, dt: Option<DataType>, op: Operand): Value
    requires IsIntegral(dt)
  {
    if IsReal(op) then
      match t
      case Equal => Between(dt, op, op)
      case Greater => Number(HighestOf(dt))
      case GreaterOrEqual => Number(HighestOf(dt))
      case _ => if dt.None? then Number(NULL_LONG) else Null
    else if dt.None? then Number(NULL_LONG)
    else if dt.value == Byte then
      if op == Some(IntegerValue(0)) || t.Less? || (t.LessOrEqual? && op.Some?) then Null else Number(0)
    else if t.Greater? || (t.GreaterOrEqual? && !InRange(op, LowestOf(dt) - 1, LowestOf(dt) - 1)) then Number(0)
    else Null
  }

  lemma RealNeeded(t: ConditionType, property: Option<Property>, op: Operand)
    requires IsScalar(property) && IsIntegral(TypeOf(property)) && IsReal(op) && !SuitableOne(t, property, op)
    ensures var v := IntegralWitness(t, TypeOf(property), op);
            HasType(TypeOf(property), v) && !OneAgrees(t, property, op, v)
  {
    var dt := TypeOf(property);
    RealOnIntegral(t, property, op, Number(HighestOf(dt)));
    RealOnIntegral(t, property, op, IntegralWitness(t, dt, op));
  }

  lemma IdNeeded(t: ConditionType, op: Operand)
    requires !SuitableId(t, op) && !IsReal(op)
    ensures HasType(None, IntegralWitness(t, None, op)) && !OneAgrees(t, None, op, IntegralWitness(t, None, op))
  {
  }

  lemma ByteNeeded(t: ConditionType, p: Property, op: Operand)
    requires p.dataType == Byte && !SuitableByte(t, op) && !IsReal(op)
    ensures var v := IntegralWitness(t, Some(Byte), op); HasType(Some(Byte), v) && !OneAgrees(t, Some(p), op, v)
  {
  }

  lemma IntNeeded(t: ConditionType, p: Property, op: Operand)
    requires p.dataType == Int && !SuitableInteger(t, op, NULL_INT, MAX_INT) && !IsReal(op)
    ensures var v := IntegralWitness(t, Some(Int), op); HasType(Some(Int), v) && !OneAgrees(t, Some(p), op, v)
  {
  }

  lemma LongNeeded(t: ConditionType, p: Property, op: Operand)
    requires p.dataType == Long && !SuitableInteger(t, op, NULL_LONG, MAX_LONG) && !IsReal(op)
    ensures var v := IntegralWitness(t, Some(Long), op); HasType(Some(Long), v) && !OneAgrees(t, Some(p), op, v)
  {
  }

  lemma BoolNeeded(t: ConditionType, p: Property, op: Operand)
    requires p.dataType == Bool && !SuitableBool(t, op)
    ensures HasType(Some(Bool), Null) && !OneAgrees(t, Some(p), op, Null)
  {
  }

  /** The double at a place. */
  function DoubleAt(place: int): u64
    requires 0 - INFINITY <= place <= INFINITY
  {
    if place >= 0 then place else TWO63 - place
  }

  function DoubleWitness(t: ConditionType, op: Operand): Value {
    if RealOperand(op).None? || t.Equal? || t.GreaterOrEqual? then (if t.Greater? then Real(0) else Null)
    else if t.Greater? then (if DoublePlace(op) < INFINITY then Real(DoubleAt(DoublePlace(op) + 1)) else Null)
    else Real(op.value.double)
  }

  lemma GreaterNeeded(p: Property, op: Operand, v: u64, next: int)
    requires p.dataType == Double && RealOperand(op).Some? && RealOperand(op).value < INFINITY && !IsNan64(v)
    requires next == SingleRank(NextUp(op.value.single)) && Rank(v) == RealOperand(op).value + 1 < next
    ensures !OneAgrees(ConditionType.Greater, Some(p), op, Real(v))
  {
    DoubleNative(ConditionType.Greater, p, op, v, next);
  }

  lemma LessNeeded(p: Property, op: Operand, next: int)
    requires p.dataType == Double && RealOperand(op).Some? && RealOperand(op).value != 0 - INFINITY
    requires next == SingleRank(NextUp(op.value.single)) >= RealOperand(op).value
    ensures !OneAgrees(ConditionType.Less, Some(p), op, Real(op.value.double))
  {
    DoubleNative(ConditionType.Less, p, op, op.value.double, next);
  }

  lemma DoubleNeededReal(t: ConditionType, p: Property, op: Operand, v: u64, next: int)
    requires p.dataType == Double && !SuitableDouble(t, op) && RealOperand(op).Some? && DoubleWitness(t, op) == Real(v)
    requires next == SingleRank(NextUp(op.value.single)) >= DoublePlace(op)
    requires DoublePlace(op) < INFINITY ==> next > DoublePlace(op)
    ensures !IsNan64(v) && !OneAgrees(t, Some(p), op, Real(v))
  {
    match t
    case Greater => GreaterNeeded(p, op, v, next);
    case Less => LessNeeded(p, op, next);
  }

  lemma DoubleNeededOther(t: ConditionType, p: Property, op: Operand)
    requires p.dataType == Double && !SuitableDouble(t, op) && RealOperand(op).None?
    ensures var v := DoubleWitness(t, op); HasType(Some(Double), v) && !OneAgrees(t, Some(p), op, v)
  {
  }

  lemma DoubleNeeded(t: ConditionType, p: Property, op: Operand)
    requires p.dataType == Double && !SuitableDouble(t, op) && Rounded(op)
    ensures var v := DoubleWitness(t, op); HasType(Some(Double), v) && !OneAgrees(t, Some(p), op, v)
  {
    if RealOperand(op).None? {
      DoubleNeededOther(t, p, op);
    } else {
      NextAbove(op.value.double, op.value.single);
      DoubleNeededReal(t, p, op, DoubleWitness(t, op).bits, SingleRank(NextUp(op.value.single)));
    }
  }

  /** The single after the one a double rounds to is above the double. */
  lemma NextAbove(d: u64, s: u32)
    requires RoundsTo(d, s) && !IsNan64(d)
    ensures if s == INFINITY32 then SingleRank(NextUp(s)) == INFINITY else SingleRank(NextUp(s)) > Rank(d)
  {
    SingleEnds(s);
    if s != INFINITY32 {
      NextUpIsNext(s);
      SingleAgainst(NextUp(s), d, s);
    }
  }

  function FloatWitness(t: ConditionType, op: Operand): Value {
    if RealOperand(op).None? then (if t.Greater? then Real(0) else Null)
    else if t.Less? then Real(NextUp(op.value.single))
    else Real(op.value.single)
  }

  lemma FloatNeededReal(t: ConditionType, p: Property, op: Operand, v: u32)
    requires p.dataType == Float && !SuitableFloat(t, op) && Rounded(op) && RealOperand(op).Some?
    requires v == FloatWitness(t, op).bits
    ensures !IsNan32(v) && !OneAgrees(t, Some(p), op, Real(v))
  {
    NextAbove(op.value.double, op.value.single);
    SingleEnds(op.value.single);
    if op.value.single != INFINITY32 { NextUpIsNext(op.value.single); }
    SingleEnds(v);
    FloatNative(t, p, op, v);
  }

  lemma FloatNeeded(t: ConditionType, p: Property, op: Operand)
    requires p.dataType == Float && !SuitableFloat(t, op) && Rounded(op)
    ensures var v := FloatWitness(t, op); HasType(Some(Float), v) && !OneAgrees(t, Some(p), op, v)
  {
    if RealOperand(op).Some? {
      FloatNeededReal(t, p, op, FloatWitness(t, op).bits);
    }
  }

  function WitnessOne(t: ConditionType, property: Option<Property>, op: Operand): Value
    requires IsScalar(property)
  {
    var dt := TypeOf(property);
    if dt == Some(Bool) then Null
    else if dt == Some(Float) then FloatWitness(t, op)
    else if dt == Some(Double) then DoubleWitness(t, op)
    else IntegralWitness(t, dt, op)
  }

  lemma IntegralNeeded(t: ConditionType, property: Option<Property>, op: Operand)
    requires IsScalar(property) && IsIntegral(TypeOf(property)) && !SuitableOne(t, property, op)
    ensures var v := IntegralWitness(t, TypeOf(property), op);
            HasType(TypeOf(property), v) && !OneAgrees(t, property, op, v)
  {
    var dt := TypeOf(property);
    if IsReal(op) {
      RealNeeded(t, property, op);
    } else if dt == None {
      IdNeeded(t, op);
    } else if dt == Some(Byte) {
      ByteNeeded(t, property.value, op);
    } else if dt == Some(Int) {
      IntNeeded(t, property.value, op);
    } else {
      LongNeeded(t, property.value, op);
    }
  }

  lemma OneNeeded(t: ConditionType, property: Option<Property>, op: Operand)
    requires IsScalar(property) && !SuitableOne(t, property, op) && Rounded(op)
    ensures var v := WitnessOne(t, property, op); HasType(TypeOf(property), v) && !OneAgrees(t, property, op, v)
  {
    var dt := TypeOf(property);
    if IsIntegral(dt) {
      IntegralNeeded(t, property, op);
    } else if dt == Some(Bool) {
      BoolNeeded(t, property.value, op);
    } else if dt == Some(Float) {
      FloatNeeded(t, property.value, op);
    } else {
      DoubleNeeded(t, property.value, op);
    }
  }

  function WitnessIds(lower: Operand, upper: Operand): Value {
    if lower.Some? && upper.Some? then Between(None, lower, upper) else Number(NULL_LONG)
  }

  lemma IdsNeeded(lower: Operand, upper: Operand)
    requires !SuitableIds(lower, upper)
    ensures var v := WitnessIds(lower, upper); HasType(None, v) && !TwoAgrees(None, lower, upper, v)
  {
  }

  function WitnessBytes(lower: Operand, upper: Operand): Value {
    match (lower, upper)
    case (Some(IntegerValue(l)), Some(IntegerValue(u))) =>
      if l == 0 && u <= MAX_BYTE then Null else Number(if l < 0 then 0 else l)
    case (Some(IntegerValue(_)), None) => Number(MAX_BYTE)
    case (None, _) => if upper.None? then Number(0) else Null
    case _ => Between(Some(Byte), lower, upper)
  }

  lemma IntegersOnByte(p: Property, lower: Operand, upper: Operand)
    requires p.dataType == Byte && !SuitableBytes(lower, upper) && IsInteger(lower) && IsInteger(upper)
    ensures var v := WitnessBytes(lower, upper); HasType(Some(Byte), v) && !TwoAgrees(Some(p), lower, upper, v)
  {
  }

  lemma NullOnByte(p: Property, lower: Operand, upper: Operand)
    requires p.dataType == Byte && !SuitableBytes(lower, upper) && (lower.None? || upper.None?)
    ensures var v := WitnessBytes(lower, upper); HasType(Some(Byte), v) && !TwoAgrees(Some(p), lower, upper, v)
  {
  }

  lemma RealsOnByte(p: Property, lower: Operand, upper: Operand)
    requires p.dataType == Byte && !SuitableBytes(lower, upper) && IsReal(lower) && IsReal(upper)
    ensures var v := WitnessBytes(lower, upper); HasType(Some(Byte), v) && !TwoAgrees(Some(p), lower, upper, v)
  {
    var v := WitnessBytes(lower, upper);
    assert v == Number(First(RealOperand(lower).value, 0, MAX_BYTE));
    RealsOnIntegral(Some(p), lower, upper, v);
  }

  lemma BytesNeeded(p: Property, lower: Operand, upper: Operand)
    requires p.dataType == Byte && !SuitableBytes(lower, upper)
    ensures var v := WitnessBytes(lower, upper); HasType(Some(Byte), v) && !TwoAgrees(Some(p), lower, upper, v)
  {
    if lower.None? || upper.None? {
      NullOnByte(p, lower, upper);
    } else if IsInteger(lower) && IsInteger(upper) {
      IntegersOnByte(p, lower, upper);
    } else {
      RealsOnByte(p, lower, upper);
    }
  }

  function WitnessIntegers(t: DataType, lower: Operand, upper: Operand): Value
    requires t == Int || t == Long
  {
    var min, max := LowestOf(Some(t)) - 1, HighestOf(Some(t));
    if IsInteger(lower) && IsInteger(upper) then
      var l, u := lower.value.n, upper.value.n;
      if l == min && u <= max then Null else if u <= max then Number(u) else Number(max)
    else if IsReal(lower) && IsReal(upper) then Between(Some(t), lower, upper)
    else Null
  }

  lemma IntsNeeded(p: Property, lower: Operand, upper: Operand)
    requires p.dataType == Int && !SuitableIntegers(lower, upper, NULL_INT, MAX_INT)
    ensures var v := WitnessIntegers(Int, lower, upper); HasType(Some(Int), v) && !TwoAgrees(Some(p), lower, upper, v)
  {
  }

  lemma LongsNeeded(p: Property, lower: Operand, upper: Operand)
    requires p.dataType == Long && !SuitableIntegers(lower, upper, NULL_LONG, MAX_LONG)
    ensures var v := WitnessIntegers(Long, lower, upper); HasType(Some(Long), v) && !TwoAgrees(Some(p), lower, upper, v)
  {
  }

  lemma BoolsNeeded(p: Property, lower: Operand, upper: Operand)
    requires p.dataType == Bool && lower.None? && BoolBound(upper).None?
    ensures HasType(Some(Bool), Null) && !TwoAgrees(Some(p), lower, upper, Null)
  {
  }

  lemma DoublesNeeded(p: Property, lower: Operand, upper: Operand)
    requires p.dataType == Double && !SuitableDoubles(lower, upper)
    ensures HasType(Some(Double), Null) && !TwoAgrees(Some(p), lower, upper, Null)
  {
  }

  function WitnessFloats(lower: Operand, upper: Operand): Value {
    if lower.None? then FloatWitness(LessOrEqual, upper)
    else if IsNanOperand(lower) || !IsReal(lower) || !IsReal(upper) then Null
    else if SinglePlace(lower) < DoublePlace(lower) then Real(lower.value.single)
    else Real(upper.value.single)
  }

  lemma FloatsNeeded(p: Property, lower: Operand, upper: Operand)
    requires p.dataType == Float && !SuitableFloats(lower, upper) && Rounded(lower) && Rounded(upper)
    ensures var v := WitnessFloats(lower, upper); HasType(Some(Float), v) && !TwoAgrees(Some(p), lower, upper, v)
  {
    if lower.None? {
      FloatNeeded(LessOrEqual, p, upper);
    } else if RealOperand(lower).Some? && RealOperand(upper).Some? {
      var v := WitnessFloats(lower, upper).bits;
      SinglesCompare(lower.value.single, upper.value.single);
      FloatsNative(p, lower, upper, v);
    }
  }

  function WitnessTwo(property: Option<Property>, lower: Operand, upper: Operand): Value
    requires IsScalar(property)
  {
    var dt := TypeOf(property);
    if dt.None? then WitnessIds(lower, upper)
    else if dt.value == Byte then WitnessBytes(lower, upper)
    else if dt.value == Int || dt.value == Long then WitnessIntegers(dt.value, lower, upper)
    else if dt.value == Float then WitnessFloats(lower, upper)
    else Null
  }

  lemma TwoNeeded(property: Option<Property>, lower: Operand, upper: Operand)
    requires IsScalar(property) && !SuitableTwo(property, lower, upper) && Rounded(lower) && Rounded(upper)
    ensures var v := WitnessTwo(property, lower, upper);
            HasType(TypeOf(property), v) && !TwoAgrees(property, lower, upper, v)
  {
    match TypeOf(property)
    case None => IdsNeeded(lower, upper);
    case Some(Bool) => BoolsNeeded(property.value, lower, upper);
    case Some(Byte) => BytesNeeded(property.value, lower, upper);
    case Some(Int) => IntsNeeded(property.value, lower, upper);
    case Some(Long) => LongsNeeded(property.value, lower, upper);
    case Some(Float) => FloatsNeeded(property.value, lower, upper);
    case Some(Double) => DoublesNeeded(property.value, lower, upper);
  }

  // ----- conditions

  /** The native filter accepts a value exactly when the evaluation on JSON does. */
  predicate Agrees(c: Condition, property: Option<Property>, v: Value)
    requires c.conditionType.IsNull? || IsScalar(property)
  {
    var n := ConditionToNative(c, property);
    (n.Some? && Accepts(n.value, v)) <==> MatchesValue(c, ToJson(TypeOf(property), v))
  }

  ghost predicate AllRounded(c: Condition) { forall i :: 0 <= i < |c.values| ==> Rounded(c.values[i]) }

  lemma SuitableAgrees(c: Condition, property: Option<Property>, v: Value)
    requires IsScalar(property) && HasType(TypeOf(property), v) && AllRounded(c) && Suitable(c, property)
    ensures Agrees(c, property, v)
  {
    if c.conditionType.Between? {
      if |c.values| >= 2 { TwoSuffices(property, c.values[0], c.values[1], v); }
    } else if !c.conditionType.IsNull? && |c.values| >= 1 {
      OneSuffices(c.conditionType, property, c.values[0], v);
    }
  }

  /** For every other condition there is a value on which the two differ. */
  lemma UnsuitableDisagrees(c: Condition, property: Option<Property>) returns (v: Value)
    requires IsScalar(property) && AllRounded(c) && !Suitable(c, property)
    ensures HasType(TypeOf(property), v) && !Agrees(c, property, v)
  {
    if c.conditionType.Between? {
      v := WitnessTwo(property, c.values[0], c.values[1]);
      TwoNeeded(property, c.values[0], c.values[1]);
    } else {
      v := WitnessOne(c.conditionType, property, c.values[0]);
      OneNeeded(c.conditionType, property, c.values[0]);
    }
  }

  /**
   The native filter of a condition accepts the same values as its evaluation on JSON exactly when its
   operands are suitable.
   */
  lemma ConditionExact(c: Condition, property: Option<Property>)
    requires IsScalar(property) && AllRounded(c)
    ensures (forall v: Value :: HasType(TypeOf(property), v) ==> Agrees(c, property, v)) <==> Suitable(c, property)
  {
    if Suitable(c, property) {
      forall v: Value | HasType(TypeOf(property), v) ensures Agrees(c, property, v) {
        SuitableAgrees(c, property, v);
      }
    } else {
      var v := UnsuitableDisagrees(c, property);
    }
  }

  /** Null, or a value of the type that is not the null sentinel. */
  predicate Plain(property: Property, op: Operand) {
    match property.dataType
    case Bool => BoolBound(op).Some?
    case Int => op.None? || InRange(op, NULL_INT + 1, MAX_INT)
    case Long => op.None? || InRange(op, NULL_LONG + 1, MAX_LONG)
    case _ => false
  }

  /** Plain operands are suitable in every condition on a bool, int or long property. */
  lemma PlainIsSuitable(c: Condition, property: Property)
    requires IsScalar(Some(property)) && forall i :: 0 <= i < |c.values| ==> Plain(property, c.values[i])
    ensures Suitable(c, Some(property))
  {
    if |c.values| >= 1 { assert Plain(property, c.values[0]); }
    if |c.values| >= 2 { assert Plain(property, c.values[1]); }
  }

  /** Less on a double property accepts the operand itself. */
  lemma LessExample(p: Property, d: u64, s: u32)
    requires p.dataType == Double && !IsNan64(d) && Rank(d) != 0 - INFINITY && RoundsTo(d, s)
    ensures var c := Condition(1, ConditionType.Less, [Some(RealValue(d, s))]);
            && ConditionToNative(c, Some(p)).Some? && Accepts(ConditionToNative(c, Some(p)).value, Real(d))
            && !MatchesValue(c, ToJson(Some(Double), Real(d)))
  {
    NextAbove(d, s);
    DoubleNative(ConditionType.Less, p, Some(RealValue(d, s)), d, SingleRank(NextUp(s)));
  }
}
