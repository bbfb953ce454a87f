/** The object format: data types, collection layouts and the reading side. */
module Deserializer {
  import opened Bytes
  import opened LittleEndian

  datatype DataType =
    | Bool | Byte | Int | Float | Long | Double | String | Object | Json
    | BoolList | ByteList | IntList | FloatList | LongList | DoubleList | StringList | ObjectList
  {
    /** Bytes a property of this type takes in the static section. */
    function StaticSize(): (n: nat)
      ensures n in {1, 3, 4, 8}
    {
      match this
      case Bool | Byte => 1
      case Int | Float => 4
      case Long | Double => 8
      case _ => 3
    }

    function ElementType(): Option<DataType> {
      match this
      case BoolList => Some(Bool)
      case ByteList => Some(Byte)
      case IntList => Some(Int)
      case FloatList => Some(Float)
      case LongList => Some(Long)
      case DoubleList => Some(Double)
      case StringList => Some(String)
      case ObjectList => Some(Object)
      case _ => None
    }

    /** The static section holds an offset to a block elsewhere. */
    predicate IsDynamic() {
      !(Bool? || Byte? || Int? || Float? || Long? || Double?)
    }
  }

  datatype Property = Property(dataType: DataType, offset: nat, embedded: Option<nat>) {
    /** First position behind the property in the static section. */
    function End(): nat { offset + dataType.StaticSize() }
  }

  datatype Collection = Collection(properties: seq<Property>, staticSize: nat)

  /** Reading either succeeds or indexes out of bounds, which stops the program. */
  datatype Outcome<+T> = Ok(value: T) | Panic {
    predicate IsFailure() { Panic? }
    function PropagateFailure<U>(): Outcome<U> requires Panic? { Panic }
    function Extract(): T requires Ok? { value }
  }

  /** What a reader sees: numbers and bit patterns, blobs for strings, JSON and byte lists. */
  datatype Value =
    | Null
    | Boolean(b: bool)
    | Number(n: int)
    | Real(bits: nat)
    | Blob(bytes: seq<byte>)
    | Record(fields: seq<Value>)
    | List(items: seq<Value>)

  const NULL_INT: i32 := -TWO31
  const NULL_LONG: i64 := -TWO63
  const NULL_FLOAT: u32 := 0x7FC0_0000
  const NULL_DOUBLE: u64 := 0x7FF8_0000_0000_0000
  const NULL_BOOL: byte := 255

  /** NaN patterns, section 6.2.1 of IEEE 754-2008. */
  predicate IsNan32(bits: u32) { bits % TWO31 > 0x7F80_0000 }

  predicate IsNan64(bits: u64) { bits % TWO63 > 0x7FF0_0000_0000_0000 }

  /** The value a scalar's static bytes stand for; the null sentinels read as Null. */
  function ScalarOf(t: DataType, raw: seq<byte>): Value
    requires !t.IsDynamic() && |raw| == t.StaticSize()
  {
    Widths();
    match t
    case Bool => if raw[0] == 0 then Boolean(false) else if raw[0] == 1 then Boolean(true) else Null
    case Byte => Number(raw[0])
    case Int => var v := Signed32(FromLe(raw)); if v == NULL_INT then Null else Number(v)
    case Long => var v := Signed64(FromLe(raw)); if v == NULL_LONG then Null else Number(v)
    case Float => if IsNan32(FromLe(raw)) then Null else Real(FromLe(raw))
    case Double => if IsNan64(FromLe(raw)) then Null else Real(FromLe(raw))
  }

  datatype IsarDeserializer = IsarDeserializer(bytes: seq<byte>, staticSize: nat) {

    static function FromBytes(b: seq<byte>): Outcome<IsarDeserializer> {
      if |b| < 3 then Panic else Ok(IsarDeserializer(b[3..], FromLe(b[..3])))
    }

    predicate ContainsOffset(offset: nat) { staticSize > offset }

    /** `&bytes[at..at + n]`. */
    function Slice(at: nat, n: nat): (r: Outcome<seq<byte>>)
      ensures r.Ok? ==> |r.value| == n
    {
      if at + n <= |bytes| then Ok(bytes[at..at + n]) else Panic
    }

    function ReadScalar(t: DataType, offset: nat): Outcome<Value>
      requires !t.IsDynamic()
    {
      if ContainsOffset(offset) then
        var raw :- Slice(offset, t.StaticSize());
        Ok(ScalarOf(t, raw))
      else
        Ok(Null)
    }

    /** The bytes a dynamic property points to, up to the end of the buffer; None for null. */
    function Target(offset: nat): (r: Outcome<Option<seq<byte>>>)
      ensures r.Ok? && r.value.Some? ==> |r.value.value| < |bytes|
    {
      if ContainsOffset(offset) then
        var raw :- Slice(offset, 3);
        var at := FromLe(raw);
        if at == 0 then Ok(None)
        else if at <= |bytes| then Ok(Some(bytes[at..]))
        else Panic
      else
        Ok(None)
    }
  }

  /** `read_dynamic`, from the start of the block. */
  function ReadBlob(block: seq<byte>): Outcome<seq<byte>> {
    var d :- IsarDeserializer.FromBytes(block);
    d.Slice(0, d.staticSize)
  }

  /** The elements of a list are laid out like properties side by side. */
  function ElementAt(element: DataType, embedded: Option<nat>, index: nat): Property {
    Property(element, index * element.StaticSize(), embedded)
  }

  function ListLayout(element: DataType, embedded: Option<nat>, length: nat): (r: seq<Property>)
    ensures |r| == length
  {
    seq(length, i requires 0 <= i < length => ElementAt(element, embedded, i))
  }

  /** Read the property `p` of an object: the reader methods of native_reader.rs by data type. */
  function ReadProperty(cols: seq<Collection>, p: Property, d: IsarDeserializer): Outcome<Value>
    decreases |d.bytes|, 1, 0
  {
    if p.dataType.IsDynamic() then
      var target :- d.Target(p.offset);
      if target == None then Ok(Null) else ReadBlock(cols, p, target.value)
    else
      d.ReadScalar(p.dataType, p.offset)
  }

  function ReadBlock(cols: seq<Collection>, p: Property, block: seq<byte>): Outcome<Value>
    requires p.dataType.IsDynamic()
    decreases |block|, 0, 0
  {
    if p.dataType in {String, Json, ByteList} then
      var bytes :- ReadBlob(block);
      Ok(Blob(bytes))
    else if p.dataType == Object then
      var nested :- IsarDeserializer.FromBytes(block);
      if p.embedded == None then Ok(Null)
      else if p.embedded.value >= |cols| then Panic
      else
        var fields :- ReadAll(cols, cols[p.embedded.value].properties, nested);
        Ok(Record(fields))
    else
      var nested :- IsarDeserializer.FromBytes(block);
      var element := p.dataType.ElementType().value;
      var length := nested.staticSize / element.StaticSize();
      var items :- ReadAll(cols, ListLayout(element, p.embedded, length), nested);
      Ok(List(items))
  }

  function ReadAll(cols: seq<Collection>, props: seq<Property>, d: IsarDeserializer): (r: Outcome<seq<Value>>)
    ensures r.Ok? ==> |r.value| == |props|
    decreases |d.bytes|, 2, |props|
  {
    if props == [] then Ok([])
    else
      var first :- ReadProperty(cols, props[0], d);
      var rest :- ReadAll(cols, props[1..], d);
      Ok([first] + rest)
  }

  lemma {:induction false} ReadAllIs(cols: seq<Collection>, props: seq<Property>, d: IsarDeserializer, vals: seq<Value>)
    requires |vals| == |props|
    requires forall i :: 0 <= i < |props| ==> ReadProperty(cols, props[i], d) == Ok(vals[i])
    ensures ReadAll(cols, props, d) == Ok(vals)
  {
    if props == [] {
    } else {
      assert forall i :: 0 <= i < |props| - 1 ==> props[1..][i] == props[i + 1] && vals[1..][i] == vals[i + 1];
      ReadAllIs(cols, props[1..], d, vals[1..]);
      assert [vals[0]] + vals[1..] == vals;
    }
  }
}
