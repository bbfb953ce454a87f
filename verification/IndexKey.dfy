/**
 Composite index keys. The bytes are built so that the database, which only compares bytes, sorts
 them like the tuples of values, nulls first. Where strings break that, it is said exactly where.
 */
module IndexKey {
  import opened Bytes
  import opened LittleEndian
  import opened KeyOrder
  import opened Deserializer

  /** One value added to a key; floats are bit patterns, strings their UTF-8 bytes. */
  datatype Component =
    | BoolKey(flag: Option<bool>)
    | ByteKey(octet: byte)
    | IntKey(number: i32)
    | LongKey(wide: i64)
    | FloatKey(single: u32)
    | DoubleKey(double: u64)
    | StringKey(text: Option<seq<byte>>)
  {
    predicate IsNull() {
      match this
      case BoolKey(flag) => flag.None?
      case ByteKey(_) => false
      case IntKey(n) => n == NULL_INT
      case LongKey(n) => n == NULL_LONG
      case FloatKey(bits) => IsNan32(bits)
      case DoubleKey(bits) => IsNan64(bits)
      case StringKey(text) => text.None?
    }
  }

  /** `n ^ 1 << 31`. */
  function FlipSign32(n: u32): u32 { if n < TWO31 then n + TWO31 else n - TWO31 }

  /** The key bits of a non-NaN float: set the sign bit of positive ones, complement negative ones. */
  function FloatBits(bits: u32): u32 {
    if bits < TWO31 then bits + TWO31 else TWO32 - 1 - (bits - TWO31) - TWO31
  }

  function DoubleBits(bits: u64): u64 {
    if bits < TWO63 then bits + TWO63 else TWO64 - 1 - (bits - TWO63) - TWO63
  }

  function Width(c: Component): nat {
    match c
    case IntKey(_) | FloatKey(_) => 4
    case LongKey(_) | DoubleKey(_) => 8
    case _ => 1
  }

  /** The bytes `add_*` pushes. */
  function KeyBytes(c: Component): seq<byte> {
    match c
    case BoolKey(flag) => [if flag.None? then 0 else if flag.value then 2 else 1]
    case ByteKey(n) => [n]
    case IntKey(n) => ToBe(FlipSign32(Unsigned32(n)), Width(c))
    case LongKey(n) => ToBe(FlipSign64(Unsigned64(n)), Width(c))
    case FloatKey(bits) => if IsNan32(bits) then Zeros(4) else ToBe(FloatBits(bits), Width(c))
    case DoubleKey(bits) => if IsNan64(bits) then Zeros(8) else ToBe(DoubleBits(bits), Width(c))
    case StringKey(None) => [0]
    case StringKey(Some(text)) => if text == [] then [1] else text
  }

  function AllBytes(cs: seq<Component>): seq<byte> {
    if cs == [] then [] else AllBytes(cs[..|cs| - 1]) + KeyBytes(cs[|cs| - 1])
  }

  ghost predicate HasNull(cs: seq<Component>) {
    exists i :: 0 <= i < |cs| && cs[i].IsNull()
  }

  const MAX_INDEX_SIZE: nat := 1024

  /** `finish`; `xxh3` is the 64-bit hash of the key. */
  function Finished(bytes: seq<byte>, xxh3: seq<byte> -> u64): seq<byte> {
    if |bytes| > MAX_INDEX_SIZE then bytes[..MAX_INDEX_SIZE - 8] + ToBe(xxh3(bytes), 8) else bytes
  }

  class Builder {
    var bytes: seq<byte>
    var containsNull: bool

    constructor WithBuffer()
      ensures bytes == [] && !containsNull
    {
      bytes, containsNull := [], false;
    }

    method AddBool(value: Option<bool>)
      modifies this
      ensures bytes == old(bytes) + KeyBytes(BoolKey(value))
      ensures containsNull == (old(containsNull) || BoolKey(value).IsNull())
    {
      if value.Some? {
        bytes := bytes + [if value.value then 2 else 1];
      } else {
        bytes := bytes + [0];
        containsNull := true;
      }
    }

    method AddByte(value: byte)
      modifies this
      ensures bytes == old(bytes) + KeyBytes(ByteKey(value))
      ensures containsNull == old(containsNull)
    {
      bytes := bytes + [value];
    }

    method AddInt(value: i32)
      modifies this
      ensures bytes == old(bytes) + KeyBytes(IntKey(value))
      ensures containsNull == (old(containsNull) || IntKey(value).IsNull())
    {
      bytes := bytes + ToBe(FlipSign32(Unsigned32(value)), 4);
      containsNull := containsNull || value == -TWO31;
    }

    method AddLong(value: i64)
      modifies this
      ensures bytes == old(bytes) + KeyBytes(LongKey(value))
      ensures containsNull == (old(containsNull) || LongKey(value).IsNull())
    {
      bytes := bytes + ToBe(FlipSign64(Unsigned64(value)), 8);
      containsNull := containsNull || value == -TWO63;
    }

    method AddFloat(value: u32)
      modifies this
      ensures bytes == old(bytes) + KeyBytes(FloatKey(value))
      ensures containsNull == (old(containsNull) || FloatKey(value).IsNull())
    {
      if !IsNan32(value) {
        bytes := bytes + ToBe(FloatBits(value), 4);
      } else {
        containsNull := true;
        bytes := bytes + Zeros(4);
      }
    }

    method AddDouble(value: u64)
      modifies this
      ensures bytes == old(bytes) + KeyBytes(DoubleKey(value))
      ensures containsNull == (old(containsNull) || DoubleKey(value).IsNull())
    {
      if !IsNan64(value) {
        bytes := bytes + ToBe(DoubleBits(value), 8);
      } else {
        containsNull := true;
        bytes := bytes + Zeros(8);
      }
    }

    method AddString(value: Option<seq<byte>>)
      modifies this
      ensures bytes == old(bytes) + KeyBytes(StringKey(value))
      ensures containsNull == (old(containsNull) || StringKey(value).IsNull())
    {
      if value.Some? {
        if value.value == [] {
          bytes := bytes + [1];
        } else {
          bytes := bytes + value.value;
        }
      } else {
        containsNull := true;
        bytes := bytes + [0];
      }
    }

    method Add(c: Component)
      modifies this
      ensures bytes == old(bytes) + KeyBytes(c)
      ensures containsNull == (old(containsNull) || c.IsNull())
    {
      match c
      case BoolKey(v) => AddBool(v);
      case ByteKey(v) => AddByte(v);
      case IntKey(v) => AddInt(v);
      case LongKey(v) => AddLong(v);
      case FloatKey(v) => AddFloat(v);
      case DoubleKey(v) => AddDouble(v);
      case StringKey(v) => AddString(v);
    }

    method Finish(xxh3: seq<byte> -> u64) returns (key: seq<byte>, hasNull: bool)
      ensures key == Finished(bytes, xxh3) && hasNull == containsNull
    {
      key, hasNull := bytes, containsNull;
      if |key| > MAX_INDEX_SIZE {
        key := key[..MAX_INDEX_SIZE - 8] + ToBe(xxh3(bytes), 8);
      }
    }
  }
}
