/** `IsarSerializer` and the native writers: the growing buffer, handed to nested writers and back. */
module Serializer {
  import opened Bytes
  import opened LittleEndian
  import opened Deserializer
  import opened Layout
  import opened ObjectTree

  /** The buffer with the header of a record of `size` static bytes written at `offset`. */
  function Opened(buffer: seq<byte>, offset: nat, size: nat): (r: seq<byte>)
    ensures |r| == if offset + size + 3 > |buffer| then offset + size + 3 else |buffer|
  {
    var minimum := offset + size + 3;
    Patch(if minimum > |buffer| then buffer + Zeros(minimum - |buffer|) else buffer, offset, U24(size))
  }

  /** What `update_dynamic` makes of the object: overwrite a block that is large enough, else append. */
  function Replaced(b: seq<byte>, offset: nat, value: seq<byte>): (r: seq<byte>)
    requires 3 + offset + 3 <= |b|
    ensures |r| >= |b|
  {
    if Overwrites(b, offset, value) then Patch(b, 3 + BlockAt(b, offset), BlobBlock(value))
    else AppendBlock(b, offset, BlobBlock(value))
  }

  /** The offset a dynamic property holds; zero for null. */
  function BlockAt(b: seq<byte>, offset: nat): nat
    requires 3 + offset + 3 <= |b|
  {
    FromLe(b[3 + offset..6 + offset])
  }

  /** There is a block and the value fits into it. */
  predicate Overwrites(b: seq<byte>, offset: nat, value: seq<byte>)
    requires 3 + offset + 3 <= |b|
    ensures Overwrites(b, offset, value) ==> 6 + BlockAt(b, offset) + |value| <= |b|
  {
    var at := BlockAt(b, offset);
    at != 0 && BlockInside(b, offset) && FromLe(b[3 + at..6 + at]) >= |value|
  }

  lemma ReplacedCases(b: seq<byte>, offset: nat, value: seq<byte>)
    requires 3 + offset + 3 <= |b|
    ensures Overwrites(b, offset, value)
        ==> Replaced(b, offset, value) == Patch(b, 3 + BlockAt(b, offset), BlobBlock(value))
    ensures !Overwrites(b, offset, value) ==> Replaced(b, offset, value) == AppendBlock(b, offset, BlobBlock(value))
  {
  }

  /** A non-null offset leads to a length and that many bytes. */
  predicate BlockInside(b: seq<byte>, offset: nat)
    requires 3 + offset + 3 <= |b|
  {
    var at := BlockAt(b, offset);
    at != 0 ==> 6 + at <= |b| && 6 + at + FromLe(b[3 + at..6 + at]) <= |b|
  }

  /** Patching the length and then the bytes is patching the block. */
  lemma PatchTwice(b: seq<byte>, at: nat, value: seq<byte>)
    requires at + 3 + |value| <= |b|
    ensures Patch(Patch(b, at, U24(|value|)), at + 3, value) == Patch(b, at, BlobBlock(value))
  {
  }

  /** The four buffer steps of `write_dynamic` append the block. */
  lemma DynamicSteps(b: seq<byte>, at: nat, value: seq<byte>)
    requires 3 + at + 3 <= |b|
    ensures var grown := Patch(b, 3 + at, U24(|b| - 3)) + Zeros(|value| + 3);
            Patch(Patch(grown, |b|, U24(|value|)), |b| + 3, value) == AppendBlock(b, at, BlobBlock(value))
  {
    var grown := Patch(b, 3 + at, U24(|b| - 3)) + Zeros(|value| + 3);
    PatchTwice(grown, |b|, value);
    assert Patch(grown, |b|, BlobBlock(value)) == Patch(b, 3 + at, U24(|b| - 3)) + BlobBlock(value);
  }

  lemma Parts(a: seq<byte>, k: nat, b: seq<byte>)
    requires k <= |a|
    ensures a == a[..k] + a[k..] && (a + b)[..|a|] == a && (a + b)[|a|..] == b
  {
  }

  /** Opening a record at the end of a buffer appends a blank one. */
  lemma OpenedAtEnd(b: seq<byte>, size: nat)
    ensures Opened(b, |b|, size) == b + Blank(size)
  {
  }

  class IsarSerializer {
    var buffer: seq<byte>
    var offset: nat
    var staticSize: nat

    ghost predicate Valid()
      reads this
    {
      3 <= offset && offset + staticSize <= |buffer| < 0x100_0000
    }

    /** The record this serializer writes, from its header to the end of the buffer. */
    ghost function Object(): seq<byte>
      reads this
      requires 3 <= offset <= |buffer|
    {
      buffer[offset - 3..]
    }

    /** Everything in front of it. */
    ghost function Before(): seq<byte>
      reads this
      requires 3 <= offset <= |buffer|
    {
      buffer[..offset - 3]
    }

    constructor (buffer: seq<byte>, offset: nat, staticSize: nat)
      requires staticSize < 0x100_0000
      ensures this.offset == offset + 3 && this.staticSize == staticSize
      ensures this.buffer == Opened(buffer, offset, staticSize)
    {
      var minimum := offset + staticSize + 3;
      var sized := buffer;
      if minimum > |sized| {
        sized := sized + Zeros(minimum - |sized|);
      }
      this.buffer := Patch(sized, offset, U24(staticSize));
      this.offset := offset + 3;
      this.staticSize := staticSize;
    }

    /** `write`: copy bytes to a position relative to the record. */
    method Write(at: nat, bytes: seq<byte>)
      requires 3 <= offset && offset + at + |bytes| <= |buffer|
      modifies this`buffer
      ensures |buffer| == |old(buffer)|
      ensures Before() == old(Before()) && Object() == Patch(old(Object()), 3 + at, bytes)
    {
      buffer := Patch(buffer, offset + at, bytes);
      assert Object() == Patch(old(Object()), 3 + at, bytes);
    }

    /** `read_u24`. */
    method ReadU24(at: nat) returns (n: nat)
      requires 3 <= offset && offset + at + 3 <= |buffer|
      ensures n == FromLe(Object()[3 + at..6 + at])
    {
      assert Object()[3 + at..6 + at] == buffer[offset + at..offset + at + 3];
      n := FromLe(buffer[offset + at..offset + at + 3]);
    }

    /** The static write methods: the assertion on the static section is what they demand. */
    method WriteStatic(at: nat, bytes: seq<byte>)
      requires Valid() && at + |bytes| <= staticSize
      modifies this`buffer
      ensures Valid() && |buffer| == |old(buffer)|
      ensures Before() == old(Before()) && Object() == Patch(old(Object()), 3 + at, bytes)
    {
      Write(at, bytes);
    }

    method WriteDynamic(at: nat, value: seq<byte>)
      requires Valid() && at + 3 <= staticSize
      requires |buffer| + 3 + |value| < 0x100_0000
      modifies this`buffer
      ensures Valid()
      ensures Before() == old(Before()) && Object() == AppendBlock(old(Object()), at, BlobBlock(value))
    {
      var dynamicOffset := StoreOffset(at, |value| + 3);
      WriteBlock(dynamicOffset, value);
      DynamicSteps(old(Object()), at, value);
    }

    /** The length and the bytes of a block. */
    method WriteBlock(at: nat, value: seq<byte>)
      requires Valid() && offset + at + 3 + |value| <= |buffer| && staticSize <= at && |value| < 0x100_0000
      modifies this`buffer
      ensures Valid() && Before() == old(Before())
      ensures Object() == Patch(Patch(old(Object()), 3 + at, U24(|value|)), 3 + (at + 3), value)
    {
      Write(at, U24(|value|));
      Write(at + 3, value);
    }

    /** The offset of the end goes to the static section, and there is room for `n` more bytes there. */
    method StoreOffset(at: nat, n: nat) returns (dynamicOffset: nat)
      requires Valid() && at + 3 <= staticSize && |buffer| + n < 0x100_0000
      modifies this`buffer
      ensures Valid() && |buffer| == |old(buffer)| + n && offset + dynamicOffset == |old(buffer)|
      ensures dynamicOffset + 3 == |old(Object())| && Before() == old(Before())
      ensures Object() == Patch(old(Object()), 3 + at, U24(dynamicOffset)) + Zeros(n)
    {
      var bufferLen := |buffer|;
      dynamicOffset := bufferLen - offset;
      WriteStatic(at, U24(dynamicOffset));
      Grow(n);
    }

    /** `Vec::resize` to a larger size. */
    method Grow(n: nat)
      requires 3 <= offset <= |buffer|
      modifies this`buffer
      ensures |buffer| == |old(buffer)| + n
      ensures Before() == old(Before()) && Object() == old(Object()) + Zeros(n)
    {
      buffer := buffer + Zeros(n);
    }

    method UpdateDynamic(at: nat, value: seq<byte>)
      requires Valid() && at + 3 <= staticSize && BlockInside(Object(), at)
      requires |buffer| + 3 + |value| < 0x100_0000
      modifies this`buffer
      ensures Valid()
      ensures Before() == old(Before()) && Object() == Replaced(old(Object()), at, value)
    {
      ReplacedCases(Object(), at, value);
      var existing := ReadU24(at);
      if existing != 0 {
        var existingLen := ReadU24(existing);
        if existingLen >= |value| {
          Write(existing, U24(|value|));
          Write(existing + 3, value);
          PatchTwice(old(Object()), 3 + existing, value);
          return;
        }
      }
      WriteDynamic(at, value);
    }

    /** The buffer moves to the nested serializer. */
    method BeginNested(at: nat, size: nat) returns (nested: IsarSerializer)
      requires Valid() && at + 3 <= staticSize
      requires |buffer| + 3 + size < 0x100_0000
      modifies this`buffer
      ensures fresh(nested) && nested.Valid() && nested.staticSize == size && buffer == []
      ensures nested.offset == |old(buffer)| + 3 && nested.Object() == Blank(size)
      ensures nested.Before() == old(Before()) + Patch(old(Object()), 3 + at, U24(|old(Object())| - 3))
    {
      var nestedOffset := |buffer|;
      WriteStatic(at, U24(nestedOffset - offset));
      assert buffer == Before() + Object() by { Parts(buffer, offset - 3, []); }
      nested := HandOver(size);
    }

    /** The buffer moves to a serializer for the object at its end. */
    method HandOver(size: nat) returns (nested: IsarSerializer)
      requires |buffer| + 3 + size < 0x100_0000
      modifies this`buffer
      ensures fresh(nested) && nested.Valid() && nested.staticSize == size && buffer == []
      ensures nested.offset == |old(buffer)| + 3 && nested.Object() == Blank(size) && nested.Before() == old(buffer)
    {
      var taken := buffer;
      OpenedAtEnd(taken, size);
      Parts(taken, 0, Blank(size));
      buffer := [];
      nested := new IsarSerializer(taken, |taken|, size);
    }

    /** And back. */
    method EndNested(writer: IsarSerializer)
      requires writer != this
      modifies this`buffer, writer`buffer
      ensures buffer == old(writer.buffer) && writer.buffer == []
    {
      buffer := writer.buffer;
      writer.buffer := [];
    }

    method Finish() returns (result: seq<byte>)
      modifies this`buffer
      ensures result == old(buffer) && buffer == []
    {
      result := buffer;
      buffer := [];
    }
  }

  /** The calls of one record (or list) in order. */
  method WriteAll(ser: IsarSerializer, cols: seq<Collection>, props: seq<Property>, ws: seq<Write>)
    requires WellFormed(cols) && WellSlotted(props, ser.staticSize) && EmbeddedInRange(cols, props) && ser.Valid()
    requires |ser.Before()| + |StoreAll(cols, props, ws, ser.Object())| < 0x100_0000
    modifies ser`buffer
    ensures ser.Valid() && ser.Before() == old(ser.Before())
    ensures ser.Object() == StoreAll(cols, props, ws, old(ser.Object()))
    decreases ws, 0, |ws|
  {
    if ws != [] {
      WriteCall(ser, cols, props, ws[0]);
      WriteAll(ser, cols, props, ws[1..]);
    }
  }

  /** One call of the writer interface, by the kind of value; nested values bracket their own calls. */
  method WriteCall(ser: IsarSerializer, cols: seq<Collection>, props: seq<Property>, w: Write)
    requires WellFormed(cols) && WellSlotted(props, ser.staticSize) && EmbeddedInRange(cols, props) && ser.Valid()
    requires |ser.Before()| + |Call(cols, props, w, ser.Object())| < 0x100_0000
    modifies ser`buffer
    ensures ser.Valid() && ser.Before() == old(ser.Before())
    ensures ser.Object() == Call(cols, props, w, old(ser.Object()))
    decreases w, 3, 0
  {
    if w.index >= |props| { return; }
    WriteTree(ser, cols, props[w.index], w.tree);
  }

  method WriteTree(ser: IsarSerializer, cols: seq<Collection>, p: Property, t: Tree)
    requires WellFormed(cols) && p.End() <= ser.staticSize && ser.Valid()
    requires p.embedded.Some? ==> p.embedded.value < |cols|
    requires |ser.Before()| + |Store(cols, p, t, ser.Object())| < 0x100_0000
    modifies ser`buffer
    ensures ser.Valid() && ser.Before() == old(ser.Before())
    ensures ser.Object() == Store(cols, p, t, old(ser.Object()))
    decreases t, 2, 0
  {
    var layout := NestedLayout(cols, p, t);
    if layout.Some? {
      var ws := if t.WObject? then t.fields else t.items;
      WriteNested(ser, cols, p, layout.value, ws, Encode(cols, layout.value, ws));
    } else {
      WriteLeaf(ser, p, t);
    }
  }

  method WriteLeaf(ser: IsarSerializer, p: Property, t: Tree)
    requires p.End() <= ser.staticSize && ser.Valid()
    requires |ser.Before()| + |StoreLeaf(p, t, ser.Object())| < 0x100_0000
    modifies ser`buffer
    ensures ser.Valid() && ser.Before() == old(ser.Before())
    ensures ser.Object() == StoreLeaf(p, t, old(ser.Object()))
  {
    if BlobFits(t, p.dataType) {
      ser.WriteDynamic(p.offset, BlobOf(t));
    } else {
      var raw := StaticBytes(p.dataType, t);
      if raw.Some? {
        ser.WriteStatic(p.offset, raw.value);
      }
    }
  }

  /** `begin_object`/`begin_list`, the nested calls, `end_object`/`end_list`. */
  method WriteNested(ser: IsarSerializer, cols: seq<Collection>, p: Property, c: Collection, ws: seq<Write>,
                     ghost block: seq<byte>)
    requires WellFormed(cols) && p.offset + 3 <= ser.staticSize && ser.Valid()
    requires WellSlotted(c.properties, c.staticSize) && EmbeddedInRange(cols, c.properties)
    requires block == Encode(cols, c, ws) && |ser.buffer| + |block| < 0x100_0000
    modifies ser`buffer
    ensures ser.Valid() && ser.Before() == old(ser.Before())
    ensures ser.Object() == AppendBlock(old(ser.Object()), p.offset, block)
    decreases ws, 1, 1
  {
    ghost var before, written := ser.Before(), AppendBlock(ser.Object(), p.offset, block);
    var nested := FillNested(ser, cols, p, c, ws, block);
    TakeBack(ser, nested, before, written);
  }

  /** A nested serializer with the buffer, after its calls. */
  method FillNested(ser: IsarSerializer, cols: seq<Collection>, p: Property, c: Collection, ws: seq<Write>,
                    ghost block: seq<byte>) returns (nested: IsarSerializer)
    requires WellFormed(cols) && p.offset + 3 <= ser.staticSize && ser.Valid()
    requires WellSlotted(c.properties, c.staticSize) && EmbeddedInRange(cols, c.properties)
    requires block == Encode(cols, c, ws) && |ser.buffer| + |block| < 0x100_0000
    modifies ser`buffer
    ensures fresh(nested) && nested.Valid()
    ensures nested.buffer == old(ser.Before()) + AppendBlock(old(ser.Object()), p.offset, block)
    decreases ws, 1, 0
  {
    ghost var before, outer := ser.Before(), ser.Object();
    nested := ser.BeginNested(p.offset, c.staticSize);
    WriteAll(nested, cols, c.properties, ws);
    Parts(nested.buffer, nested.offset - 3, []);
    Appended(before, outer, p.offset, block);
  }

  lemma Appended(before: seq<byte>, outer: seq<byte>, at: nat, block: seq<byte>)
    requires 3 + at + 3 <= |outer|
    ensures before + Patch(outer, 3 + at, U24(|outer| - 3)) + block == before + AppendBlock(outer, at, block)
  {
  }

  /** `end_object`/`end_list`: the buffer with the finished block comes back. */
  method TakeBack(ser: IsarSerializer, nested: IsarSerializer, ghost before: seq<byte>, ghost written: seq<byte>)
    requires nested != ser && nested.Valid() && nested.buffer == before + written
    requires |before| + 3 == ser.offset && 3 + ser.staticSize <= |written|
    modifies ser`buffer, nested`buffer
    ensures ser.Valid() && ser.Before() == before && ser.Object() == written
  {
    ser.EndNested(nested);
    Parts(before, 0, written);
  }

  /** What `NativeInsert` does for one object: a fresh serializer, the calls, the finished bytes. */
  method SerializeObject(cols: seq<Collection>, c: Collection, ws: seq<Write>) returns (bytes: seq<byte>)
    requires WellFormed(cols) && WellSlotted(c.properties, c.staticSize) && EmbeddedInRange(cols, c.properties)
    requires |Encode(cols, c, ws)| < 0x100_0000
    ensures bytes == Encode(cols, c, ws)
    ensures var d := Deserializer.IsarDeserializer.FromBytes(bytes);
            d.Ok? && ReadAll(cols, c.properties, d.value) == Ok(ExpectObject(cols, c.properties, ws))
  {
    var ser := new IsarSerializer([], 0, c.staticSize);
    OpenedAtEnd([], c.staticSize);
    assert ser.Object() == Blank(c.staticSize) && ser.Before() == [];
    WriteAll(ser, cols, c.properties, ws);
    assert ser.Object() == ser.buffer;
    bytes := ser.Finish();
    RoundTrip(cols, c, ws);
  }
}
