/** Native filters on stored objects against the conditions on the values the objects hold. */
module StoredFilters {
  import opened Bytes
  import opened LittleEndian
  import opened Deserializer
  import opened Layout
  import opened ObjectTree
  import opened ObjectUpdate
  import opened Doubles
  import opened Conditions
  import opened FilterCompile
  import opened FilterSuitability

  // ----- what the reader returns

  /** Whatever the bytes, a scalar reads as a value of its type. */
  lemma ScalarTyped(t: DataType, raw: seq<byte>)
    requires !t.IsDynamic() && |raw| == t.StaticSize()
    ensures HasType(Some(t), ScalarOf(t, raw))
  {
    Widths();
  }

  lemma {:induction false} ReadAllEach(cols: seq<Collection>, props: seq<Property>, d: IsarDeserializer, i: nat)
    requires ReadAll(cols, props, d).Ok? && i < |props|
    ensures ReadProperty(cols, props[i], d) == Ok(ReadAll(cols, props, d).value[i])
  {
    if i == 0 {
    } else {
      ReadAllEach(cols, props[1..], d, i - 1);
    }
  }

  /** The native filters see a scalar as the reader does, with a value of its type. */
  lemma ScalarRead(cols: seq<Collection>, p: Property, d: IsarDeserializer, v: Value)
    requires !p.dataType.IsDynamic() && ReadProperty(cols, p, d) == Ok(v)
    ensures ReadValue(p, d) == v && HasType(Some(p.dataType), v)
  {
    if d.ContainsOffset(p.offset) {
      ScalarTyped(p.dataType, d.Slice(p.offset, p.dataType.StaticSize()).value);
    }
  }

  /** They see a null where the reader sees one. */
  lemma NullRead(cols: seq<Collection>, p: Property, d: IsarDeserializer, v: Value)
    requires p.dataType.IsDynamic() && ReadProperty(cols, p, d) == Ok(v)
    requires p.dataType == Object ==> EmbeddedIn(cols, Some(p)).Some?
    ensures ReadValue(p, d) == Null <==> v == Null
  {
  }

  /** They open the embedded object the reader opens. */
  lemma NestedRead(cols: seq<Collection>, p: Property, d: IsarDeserializer, v: Value)
    requires ReadProperty(cols, p, d) == Ok(v) && EmbeddedIn(cols, Some(p)).Some?
    ensures v.Record? <==> ReadNested(p, d).Some?
    ensures v.Record? ==>
              ReadAll(cols, EmbeddedIn(cols, Some(p)).value.properties, ReadNested(p, d).value) == Ok(v.fields)
  {
  }

  // ----- trees

  predicate AllSuitable(f: Filter, cols: seq<Collection>, props: seq<Property>)
    requires InScope(f, cols, props)
  {
    match f
    case Cond(c) => Suitable(c, GetProperty(props, c.propertyIndex))
    case Nested(i, g) =>
      var property := GetProperty(props, i);
      property.Some? && property.value.embedded.Some? ==>
        AllSuitable(g, cols, EmbeddedIn(cols, property).value.properties)
    case And(fs) => forall i :: 0 <= i < |fs| ==> AllSuitable(fs[i], cols, props)
    case Or(fs) => forall i :: 0 <= i < |fs| ==> AllSuitable(fs[i], cols, props)
    case Not(g) => AllSuitable(g, cols, props)
  }

  ghost predicate RoundedIn(f: Filter) {
    match f
    case Cond(c) => AllRounded(c)
    case Nested(_, g) => RoundedIn(g)
    case And(fs) => forall i :: 0 <= i < |fs| ==> RoundedIn(fs[i])
    case Or(fs) => forall i :: 0 <= i < |fs| ==> RoundedIn(fs[i])
    case Not(g) => RoundedIn(g)
  }

  /** What a condition compiles to: a range on its property or on the id, or false. */
  predicate IsRange(n: NativeFilter, property: Option<Property>) {
    match n
    case IdBetween(_, _) => property.None?
    case Static(b) => !b
    case NativeNested(_, _) => false
    case NativeAnd(_) => false
    case NativeOr(_) => false
    case NativeNot(_) => false
    case _ => property == Some(n.property)
  }

  lemma BetweenIsRange(property: Option<Property>, lower: Operand, includeLower: bool, upper: Operand,
                       includeUpper: bool)
    requires IsScalar(property)
    ensures var n := NativeBetween(property, lower, includeLower, upper, includeUpper);
            n.Some? ==> IsRange(n.value, property) && !n.value.NativeIsNull?
  {
  }

  lemma CompiledIsRange(c: Condition, property: Option<Property>)
    requires c.conditionType.IsNull? || IsScalar(property)
    ensures var n := ConditionToNative(c, property);
            n.Some? ==> IsRange(n.value, property) && (n.value.NativeIsNull? <==> c.conditionType.IsNull?)
  {
    if c.conditionType.Between? {
      if |c.values| >= 2 { BetweenIsRange(property, c.values[0], true, c.values[1], true); }
    } else if !c.conditionType.IsNull? && |c.values| >= 1 {
      OneIsRange(c.conditionType, property, c.values[0]);
    }
  }

  lemma OneIsRange(t: ConditionType, property: Option<Property>, op: Operand)
    requires IsScalar(property)
    ensures var n := OneOperand(t, property, op);
            n.Some? ==> IsRange(n.value, property) && !n.value.NativeIsNull?
  {
    match t
    case Equal => BetweenIsRange(property, op, true, op, true);
    case Greater => BetweenIsRange(property, op, false, GetMax(property), true);
    case GreaterOrEqual => BetweenIsRange(property, op, true, GetMax(property), true);
    case Less => BetweenIsRange(property, None, true, op, false);
    case LessOrEqual => BetweenIsRange(property, None, true, op, true);
    case _ =>
  }

  lemma RangeOnObject(n: NativeFilter, property: Option<Property>, id: i64, d: IsarDeserializer, v: Value)
    requires IsRange(n, property) && (property.None? ==> v == Number(id))
    requires property.Some? ==>
               if n.NativeIsNull? then ReadValue(property.value, d) == Null <==> v == Null
               else ReadValue(property.value, d) == v
    ensures Evaluate(n, id, d) <==> Accepts(n, v)
  {
  }

  /** The value a condition is about, as the native filters see it. */
  lemma SeenValue(c: Condition, cols: seq<Collection>, props: seq<Property>, id: i64, d: IsarDeserializer,
                  vals: seq<Value>)
    requires InScope(Cond(c), cols, props) && ReadAll(cols, props, d) == Ok(vals)
    ensures var property, v := GetProperty(props, c.propertyIndex), ValueAt(props, id, vals, c.propertyIndex);
            && (property.None? ==> v == Number(id))
            && (IsScalar(property) ==> HasType(TypeOf(property), v))
            && (property.Some? && IsScalar(property) ==> ReadValue(property.value, d) == v)
            && (property.Some? && c.conditionType.IsNull? ==> (ReadValue(property.value, d) == Null <==> v == Null))
  {
    var i, property := c.propertyIndex, GetProperty(props, c.propertyIndex);
    if property.Some? {
      ReadAllEach(cols, props, d, i - 1);
      if property.value.dataType.IsDynamic() {
        NullRead(cols, property.value, d, vals[i - 1]);
      } else {
        ScalarRead(cols, property.value, d, vals[i - 1]);
      }
    }
  }

  /** A compiled condition on an object depends on the one value it is about. */
  lemma ConditionOnObject(c: Condition, cols: seq<Collection>, props: seq<Property>, id: i64, d: IsarDeserializer,
                          vals: seq<Value>)
    requires InScope(Cond(c), cols, props) && ReadAll(cols, props, d) == Ok(vals)
    ensures var property, v := GetProperty(props, c.propertyIndex), ValueAt(props, id, vals, c.propertyIndex);
            && (IsScalar(property) ==> HasType(TypeOf(property), v))
            && (Evaluate(FilterToNative(Cond(c), cols, props), id, d) <==>
                  var n := ConditionToNative(c, property); n.Some? && Accepts(n.value, v))
  {
    var property := GetProperty(props, c.propertyIndex);
    SeenValue(c, cols, props, id, d, vals);
    CompiledIsRange(c, property);
    var n := ConditionToNative(c, property);
    if n.Some? {
      RangeOnObject(n.value, property, id, d, ValueAt(props, id, vals, c.propertyIndex));
    }
  }

  lemma ConditionAgrees(c: Condition, cols: seq<Collection>, props: seq<Property>, id: i64, d: IsarDeserializer,
                        vals: seq<Value>)
    requires InScope(Cond(c), cols, props) && ReadAll(cols, props, d) == Ok(vals)
    requires Suitable(c, GetProperty(props, c.propertyIndex)) && AllRounded(c)
    ensures Evaluate(FilterToNative(Cond(c), cols, props), id, d) <==> Matches(Cond(c), cols, props, id, vals)
  {
    var property, v := GetProperty(props, c.propertyIndex), ValueAt(props, id, vals, c.propertyIndex);
    ConditionOnObject(c, cols, props, id, d, vals);
    if !c.conditionType.IsNull? {
      SuitableAgrees(c, property, v);
    }
  }

  /**
   A compiled filter accepts the bytes of an object exactly when the conditions, combined by the same
   connectives and taken into embedded objects, accept the values the reader returns for it.
   */
  lemma {:induction false} FilterAgrees(f: Filter, cols: seq<Collection>, props: seq<Property>, id: i64,
                                        d: IsarDeserializer, vals: seq<Value>)
    requires InScope(f, cols, props) && AllSuitable(f, cols, props) && RoundedIn(f)
    requires ReadAll(cols, props, d) == Ok(vals)
    ensures Evaluate(FilterToNative(f, cols, props), id, d) <==> Matches(f, cols, props, id, vals)
    decreases f
  {
    match f
    case Cond(c) => ConditionAgrees(c, cols, props, id, d, vals);
    case Nested(i, g) =>
      var property := GetProperty(props, i);
      if property.Some? && property.value.embedded.Some? {
        var target := EmbeddedIn(cols, property).value.properties;
        ReadAllEach(cols, props, d, i - 1);
        NestedRead(cols, property.value, d, vals[i - 1]);
        if vals[i - 1].Record? {
          FilterAgrees(g, cols, target, NULL_LONG, ReadNested(property.value, d).value, vals[i - 1].fields);
        }
        NestedAgrees(i, g, cols, props, id, d, vals);
      }
    case And(fs) =>
      forall k | 0 <= k < |fs|
        ensures Evaluate(FilterToNative(fs[k], cols, props), id, d) <==> Matches(fs[k], cols, props, id, vals)
      {
        FilterAgrees(fs[k], cols, props, id, d, vals);
      }
      AndAgrees(fs, cols, props, id, d, vals);
    case Or(fs) =>
      forall k | 0 <= k < |fs|
        ensures Evaluate(FilterToNative(fs[k], cols, props), id, d) <==> Matches(fs[k], cols, props, id, vals)
      {
        FilterAgrees(fs[k], cols, props, id, d, vals);
      }
      OrAgrees(fs, cols, props, id, d, vals);
    case Not(g) => FilterAgrees(g, cols, props, id, d, vals);
  }

  lemma NestedAgrees(i: nat, g: Filter, cols: seq<Collection>, props: seq<Property>, id: i64, d: IsarDeserializer,
                     vals: seq<Value>)
    requires InScope(Nested(i, g), cols, props) && |vals| == |props|
    requires GetProperty(props, i).Some? && GetProperty(props, i).value.embedded.Some?
    requires var p, v := GetProperty(props, i).value, vals[i - 1];
             var target := EmbeddedIn(cols, Some(p)).value.properties;
             && (v.Record? <==> ReadNested(p, d).Some?)
             && (v.Record? ==>
                   && |v.fields| == |target|
                   && (Evaluate(FilterToNative(g, cols, target), NULL_LONG, ReadNested(p, d).value)
                       <==> Matches(g, cols, target, NULL_LONG, v.fields)))
    ensures Evaluate(FilterToNative(Nested(i, g), cols, props), id, d) <==> Matches(Nested(i, g), cols, props, id, vals)
  {
  }

  lemma AndAgrees(fs: seq<Filter>, cols: seq<Collection>, props: seq<Property>, id: i64, d: IsarDeserializer,
                  vals: seq<Value>)
    requires InScope(And(fs), cols, props) && |vals| == |props|
    requires forall k :: 0 <= k < |fs| ==>
               (Evaluate(FilterToNative(fs[k], cols, props), id, d) <==> Matches(fs[k], cols, props, id, vals))
    ensures Evaluate(FilterToNative(And(fs), cols, props), id, d) <==> Matches(And(fs), cols, props, id, vals)
  {
    var native := FilterToNative(And(fs), cols, props).filters;
    assert forall k :: 0 <= k < |fs| ==> native[k] == FilterToNative(fs[k], cols, props);
  }

  lemma OrAgrees(fs: seq<Filter>, cols: seq<Collection>, props: seq<Property>, id: i64, d: IsarDeserializer,
                 vals: seq<Value>)
    requires InScope(Or(fs), cols, props) && |vals| == |props|
    requires forall k :: 0 <= k < |fs| ==>
               (Evaluate(FilterToNative(fs[k], cols, props), id, d) <==> Matches(fs[k], cols, props, id, vals))
    ensures Evaluate(FilterToNative(Or(fs), cols, props), id, d) <==> Matches(Or(fs), cols, props, id, vals)
  {
    var native := FilterToNative(Or(fs), cols, props).filters;
    assert forall k :: 0 <= k < |fs| ==> native[k] == FilterToNative(fs[k], cols, props);
  }

  /** In particular on what any sequence of writer calls stored. */
  lemma StoredAgrees(f: Filter, cols: seq<Collection>, c: Collection, ws: seq<Write>, id: i64)
    requires WellFormed(cols) && WellSlotted(c.properties, c.staticSize) && EmbeddedInRange(cols, c.properties)
    requires |Encode(cols, c, ws)| < 0x100_0000
    requires InScope(f, cols, c.properties) && AllSuitable(f, cols, c.properties) && RoundedIn(f)
    ensures var d := IsarDeserializer.FromBytes(Encode(cols, c, ws));
            && d.Ok?
            && (Evaluate(FilterToNative(f, cols, c.properties), id, d.value)
                <==> Matches(f, cols, c.properties, id, ExpectObject(cols, c.properties, ws)))
  {
    RoundTrip(cols, c, ws);
    FilterAgrees(f, cols, c.properties, id, IsarDeserializer.FromBytes(Encode(cols, c, ws)).value,
                 ExpectObject(cols, c.properties, ws));
  }

  /** Equal to 5.0 on an object that holds the integer 5: missed by the native filter, and found under Not. */
  lemma RealExample(p: Property, single: u32, id: i64, d: IsarDeserializer)
    requires p.dataType == Int && ReadAll([], [p], d) == Ok([Number(5)])
    ensures var f := Cond(Condition(1, Equal, [Some(RealValue(0x4014_0000_0000_0000, single))]));
            && !Evaluate(FilterToNative(f, [], [p]), id, d) && Matches(f, [], [p], id, [Number(5)])
            && Evaluate(FilterToNative(Not(f), [], [p]), id, d) && !Matches(Not(f), [], [p], id, [Number(5)])
  {
    FiveAsDouble();
    var c := Condition(1, Equal, [Some(RealValue(0x4014_0000_0000_0000, single))]);
    ConditionOnObject(c, [], [p], id, d, [Number(5)]);
  }
}
