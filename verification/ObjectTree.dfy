/**
 Object trees: what a sequence of writer calls appends to a buffer, and the round trip through the
 reader. A tree is any sequence of writes, in any order, with repetitions and with calls whose type
 does not fit the property; the reader sees the last effective write of every property.
 */
module ObjectTree {
  import opened Bytes
  import opened LittleEndian
  import opened Deserializer
  import opened Layout

  /** One writer call: the value for the property (or list element) number `index`. */
  datatype Write = Write(index: nat, tree: Tree)

  datatype Tree =
    | WNull
    | WBool(b: bool)
    | WByte(octet: byte)
    | WInt(number: i32)
    | WLong(wide: i64)
    | WFloat(single: u32)
    | WDouble(double: u64)
    | WString(text: seq<byte>)
    | WByteList(bytes: seq<byte>)
    | WObject(fields: seq<Write>)
    | WList(length: nat, items: seq<Write>)

  // ----- what the calls store

  function ScalarBytes(t: Tree): (r: seq<byte>)
    requires t.WBool? || t.WByte? || t.WInt? || t.WLong? || t.WFloat? || t.WDouble?
  {
    match t
    case WBool(b) => [if b then 1 else 0]
    case WByte(n) => [n]
    case WInt(n) => ToLe(Unsigned32(n), Int.StaticSize())
    case WLong(n) => ToLe(Unsigned64(n), Long.StaticSize())
    case WFloat(bits) => ToLe(bits, Float.StaticSize())
    case WDouble(bits) => ToLe(bits, Double.StaticSize())
  }

  /** The static bytes `write_null` stores. */
  function NullBytes(t: DataType): (r: seq<byte>)
    ensures |r| == t.StaticSize()
  {
    match t
    case Bool => [NULL_BOOL]
    case Byte => [0]
    case Int => ToLe(Unsigned32(NULL_INT), t.StaticSize())
    case Float => ToLe(NULL_FLOAT, t.StaticSize())
    case Long => ToLe(Unsigned64(NULL_LONG), t.StaticSize())
    case Double => ToLe(NULL_DOUBLE, t.StaticSize())
    case _ => U24(0)
  }

  /** A call whose type does not fit the property is ignored. */
  predicate ScalarFits(t: Tree, d: DataType) {
    match t
    case WBool(_) => d == Bool
    case WByte(_) => d == Byte
    case WInt(_) => d == Int
    case WLong(_) => d == Long
    case WFloat(_) => d == Float
    case WDouble(_) => d == Double
    case _ => false
  }

  predicate BlobFits(t: Tree, d: DataType) {
    match t
    case WString(_) => d == String || d == Json
    case WByteList(_) => d == ByteList
    case _ => false
  }

  function BlobOf(t: Tree): seq<byte>
    requires t.WString? || t.WByteList?
  {
    match t
    case WString(text) => text
    case WByteList(bytes) => bytes
  }

  /**
   The record a call opens, if it opens one: an object of the embedded collection, or a list whose
   elements are laid out side by side. `begin_list` on anything else writes null instead.
   */
  function NestedLayout(cols: seq<Collection>, p: Property, t: Tree): (r: Option<Collection>)
    ensures r.Some? ==> (t.WObject? || t.WList?) && p.dataType.IsDynamic()
    ensures r.Some? && WellFormed(cols) ==> WellSlotted(r.value.properties, r.value.staticSize)
    ensures r.Some? && WellFormed(cols) && (p.embedded.Some? ==> p.embedded.value < |cols|) ==>
              EmbeddedInRange(cols, r.value.properties)
  {
    if t.WObject? && p.dataType == Object && p.embedded.Some? && p.embedded.value < |cols| then
      Some(cols[p.embedded.value])
    else if t.WList? && p.dataType.ElementType().Some? then
      var element := p.dataType.ElementType().value;
      ListSlots(element, p.embedded, t.length);
      Some(Collection(ListLayout(element, p.embedded, t.length), element.StaticSize() * t.length))
    else
      None
  }

  lemma ListSlots(element: DataType, embedded: Option<nat>, length: nat)
    ensures WellSlotted(ListLayout(element, embedded, length), element.StaticSize() * length)
  {
    var props, n := ListLayout(element, embedded, length), element.StaticSize();
    forall i | 0 <= i < length ensures props[i].End() <= n * length {
      assert (i + 1) * n <= length * n;
    }
    forall i, j | 0 <= i < j < length ensures props[i].End() <= props[j].offset {
      assert (i + 1) * n <= j * n;
    }
  }

  /** The object buffer after storing a dynamic block: the offset goes to the static section. */
  function AppendBlock(b: seq<byte>, offset: nat, block: seq<byte>): (r: seq<byte>)
    requires 3 + offset + 3 <= |b|
    ensures |r| == |b| + |block|
  {
    Patch(b, 3 + offset, U24(|b| - 3)) + block
  }

  function BlobBlock(bytes: seq<byte>): seq<byte> { U24(|bytes|) + bytes }

  /** Room for a record of `size` static bytes, all zero. */
  function Blank(size: nat): (r: seq<byte>)
    ensures |r| == 3 + size
  {
    U24(size) + Zeros(size)
  }

  ghost predicate Fits(props: seq<Property>, b: seq<byte>) {
    forall i :: 0 <= i < |props| ==> 3 + props[i].End() <= |b|
  }

  /** The static bytes a call stores, if it stores any. */
  function StaticBytes(d: DataType, t: Tree): (r: Option<seq<byte>>)
    ensures r.Some? ==> |r.value| == d.StaticSize()
  {
    if t.WNull? || t.WList? then Some(NullBytes(d))
    else if ScalarFits(t, d) then Some(ScalarBytes(t))
    else None
  }

  /** A call that opens no record. */
  function StoreLeaf(p: Property, t: Tree, b: seq<byte>): (r: seq<byte>)
    requires 3 + p.End() <= |b|
    ensures |r| >= |b|
  {
    if BlobFits(t, p.dataType) then AppendBlock(b, p.offset, BlobBlock(BlobOf(t)))
    else
      match StaticBytes(p.dataType, t)
      case Some(raw) => Patch(b, 3 + p.offset, raw)
      case None => b
  }

  function Store(cols: seq<Collection>, p: Property, t: Tree, b: seq<byte>): (r: seq<byte>)
    requires WellFormed(cols) && 3 + p.End() <= |b|
    ensures |r| >= |b|
    decreases t, 2, 0
  {
    match NestedLayout(cols, p, t)
    case Some(c) => AppendBlock(b, p.offset, Encode(cols, c, if t.WObject? then t.fields else t.items))
    case None => StoreLeaf(p, t, b)
  }

  /** One writer call; an index without a property is ignored. */
  function Call(cols: seq<Collection>, props: seq<Property>, w: Write, b: seq<byte>): (r: seq<byte>)
    requires WellFormed(cols) && Fits(props, b)
    ensures |r| >= |b|
    decreases w, 3, 0
  {
    if w.index < |props| then Store(cols, props[w.index], w.tree, b) else b
  }

  function StoreAll(cols: seq<Collection>, props: seq<Property>, ws: seq<Write>, b: seq<byte>): (r: seq<byte>)
    requires WellFormed(cols) && Fits(props, b)
    ensures |r| >= |b|
    decreases ws, 0, |ws|
  {
    if ws == [] then b else StoreAll(cols, props, ws[1..], Call(cols, props, ws[0], b))
  }

  /** The bytes of a record on its own. */
  function Encode(cols: seq<Collection>, c: Collection, ws: seq<Write>): (r: seq<byte>)
    requires WellFormed(cols) && WellSlotted(c.properties, c.staticSize)
    ensures |r| >= 3 + c.staticSize
    decreases ws, 1, 0
  {
    StoreAll(cols, c.properties, ws, Blank(c.staticSize))
  }

  // ----- what the reader should see

  function Default(t: DataType): Value {
    match t
    case Bool => Boolean(false)
    case Byte | Int | Long => Number(0)
    case Float | Double => Real(0)
    case _ => Null
  }

  function ScalarValue(t: Tree): Value
    requires t.WBool? || t.WByte? || t.WInt? || t.WLong? || t.WFloat? || t.WDouble?
  {
    match t
    case WBool(b) => Boolean(b)
    case WByte(n) => Number(n)
    case WInt(n) => if n == NULL_INT then Null else Number(n)
    case WLong(n) => if n == NULL_LONG then Null else Number(n)
    case WFloat(bits) => if IsNan32(bits) then Null else Real(bits)
    case WDouble(bits) => if IsNan64(bits) then Null else Real(bits)
  }

  function NullValue(t: DataType): Value { if t == Byte then Number(0) else Null }

  function ExpectLeaf(p: Property, t: Tree, before: Value): Value {
    if t.WNull? || t.WList? then NullValue(p.dataType)
    else if ScalarFits(t, p.dataType) then ScalarValue(t)
    else if BlobFits(t, p.dataType) then Blob(BlobOf(t))
    else before
  }

  /** The values of a nested record as one value; byte lists are read as blobs. */
  function Assemble(t: DataType, vals: seq<Value>): Value {
    if t == Object then Record(vals)
    else if t == ByteList then Blob(seq(|vals|, i requires 0 <= i < |vals| => AsByte(vals[i])))
    else List(vals)
  }

  /** The value of property `p` after the call `t`, when it was `before`. */
  function Expect(cols: seq<Collection>, p: Property, t: Tree, before: Value): Value
    decreases t, 2, 0
  {
    match NestedLayout(cols, p, t)
    case Some(c) => Assemble(p.dataType, ExpectObject(cols, c.properties, if t.WObject? then t.fields else t.items))
    case None => ExpectLeaf(p, t, before)
  }

  function AsByte(v: Value): byte {
    if v.Number? && 0 <= v.n < 0x100 then v.n else 0
  }

  function ExpectCall(cols: seq<Collection>, props: seq<Property>, w: Write, vals: seq<Value>): (r: seq<Value>)
    requires |vals| == |props|
    ensures |r| == |props|
    decreases w, 3, 0
  {
    if w.index < |props| then vals[w.index := Expect(cols, props[w.index], w.tree, vals[w.index])] else vals
  }

  function ExpectAll(cols: seq<Collection>, props: seq<Property>, ws: seq<Write>, vals: seq<Value>): (r: seq<Value>)
    requires |vals| == |props|
    ensures |r| == |props|
    decreases ws, 0, |ws|
  {
    if ws == [] then vals else ExpectAll(cols, props, ws[1..], ExpectCall(cols, props, ws[0], vals))
  }

  function Defaults(props: seq<Property>): (r: seq<Value>)
    ensures |r| == |props|
  {
    seq(|props|, i requires 0 <= i < |props| => Default(props[i].dataType))
  }

  function ExpectObject(cols: seq<Collection>, props: seq<Property>, ws: seq<Write>): (r: seq<Value>)
    ensures |r| == |props|
    decreases ws, 1, 0
  {
    ExpectAll(cols, props, ws, Defaults(props))
  }

  // ----- proofs

  lemma ScalarRoundTrip(t: Tree, d: DataType)
    requires ScalarFits(t, d)
    ensures |ScalarBytes(t)| == d.StaticSize() && ScalarOf(d, ScalarBytes(t)) == ScalarValue(t)
  {
    Widths();
    match t
    case WInt(n) => LeRoundTrip(Unsigned32(n), 4);
    case WLong(n) => LeRoundTrip(Unsigned64(n), 8);
    case WFloat(bits) => LeRoundTrip(bits, 4);
    case WDouble(bits) => LeRoundTrip(bits, 8);
    case _ =>
  }

  lemma NullRoundTrip(d: DataType)
    requires !d.IsDynamic()
    ensures ScalarOf(d, NullBytes(d)) == NullValue(d)
  {
    Widths();
    match d
    case Int => LeRoundTrip(Unsigned32(NULL_INT), 4);
    case Long => LeRoundTrip(Unsigned64(NULL_LONG), 8);
    case Float => LeRoundTrip(NULL_FLOAT, 4);
    case Double => LeRoundTrip(NULL_DOUBLE, 8);
    case _ =>
  }

  lemma {:induction false} ZeroLe(b: seq<byte>)
    requires forall i :: 0 <= i < |b| ==> b[i] == 0
    ensures FromLe(b) == 0
  {
    if b == [] {
    } else {
      ZeroLe(b[1..]);
    }
  }

  /** A fresh record reads as the defaults. */
  lemma BlankLaid(cols: seq<Collection>, props: seq<Property>, size: nat)
    requires WellSlotted(props, size) && size < 0x100_0000
    ensures Laid(cols, props, size, Blank(size), seq(|props|, _ => EMPTY), Defaults(props))
  {
    var b := Blank(size);
    forall i | 0 <= i < |props| ensures Slot(cols, b, size, props[i], EMPTY, Default(props[i].dataType)) {
      var raw := SlotBytes(b, props[i]);
      assert forall k :: 0 <= k < |raw| ==> raw[k] == 0;
      ZeroLe(raw);
    }
  }

  /** Storing static bytes in place. */
  lemma PatchLaid(cols: seq<Collection>, props: seq<Property>, size: nat, b: seq<byte>,
                  ext: seq<Extent>, vals: seq<Value>, i: nat, raw: seq<byte>, v: Value)
    requires Laid(cols, props, size, b, ext, vals) && i < |props|
    requires |raw| == props[i].dataType.StaticSize()
    requires if props[i].dataType.IsDynamic() then FromLe(raw) == 0 && v == Null
             else v == ScalarOf(props[i].dataType, raw)
    ensures Laid(cols, props, size, Patch(b, 3 + props[i].offset, raw), ext[i := EMPTY], vals[i := v])
  {
    var b' := Patch(b, 3 + props[i].offset, raw);
    assert SlotBytes(b', props[i]) == raw;
    assert Slot(cols, b', size, props[i], EMPTY, v);
    LaidUpdate(cols, props, size, b, b', ext, vals, i, EMPTY, v);
  }

  /** Appending a block that reads as `v` and pointing the property at it. */
  lemma AppendLaid(cols: seq<Collection>, props: seq<Property>, size: nat, b: seq<byte>,
                   ext: seq<Extent>, vals: seq<Value>, i: nat, block: seq<byte>, v: Value)
    requires Laid(cols, props, size, b, ext, vals) && i < |props| && props[i].dataType.IsDynamic()
    requires ReadsAs(cols, props[i], block, v) && 3 < |b| < 0x100_0000 + 3
    ensures Laid(cols, props, size, AppendBlock(b, props[i].offset, block),
                 ext[i := Extent(|b|, |b| + |block|)], vals[i := v])
  {
    var b' := AppendBlock(b, props[i].offset, block);
    var e := Extent(|b|, |b| + |block|);
    U24RoundTrip(|b| - 3);
    assert SlotBytes(b', props[i]) == U24(|b| - 3);
    assert b'[e.lo..e.hi] == block;
    forall j | 0 <= j < |props| && j != i ensures ext[j].Apart(e) {
      assert Slot(cols, b, size, props[j], ext[j], vals[j]);
    }
    LaidUpdate(cols, props, size, b, b', ext, vals, i, e, v);
  }

  lemma BlobReads(cols: seq<Collection>, p: Property, bytes: seq<byte>)
    requires p.dataType in {String, Json, ByteList} && |bytes| < 0x100_0000
    ensures ReadsAs(cols, p, BlobBlock(bytes), Blob(bytes))
  {
    U24RoundTrip(|bytes|);
    forall rest: seq<byte> ensures ReadBlock(cols, p, BlobBlock(bytes) + rest) == Ok(Blob(bytes)) {
      var block := BlobBlock(bytes) + rest;
      assert block[..3] == U24(|bytes|) && block[3..][0..|bytes|] == bytes;
    }
  }

  lemma AppendBlobLaid(cols: seq<Collection>, props: seq<Property>, size: nat, b: seq<byte>,
                       ext: seq<Extent>, vals: seq<Value>, i: nat, bytes: seq<byte>)
    returns (ext': seq<Extent>)
    requires Laid(cols, props, size, b, ext, vals) && i < |props| && props[i].dataType in {String, Json, ByteList}
    requires |b| + 3 + |bytes| < 0x100_0000
    ensures Laid(cols, props, size, AppendBlock(b, props[i].offset, BlobBlock(bytes)), ext', vals[i := Blob(bytes)])
  {
    var block := BlobBlock(bytes);
    BlobReads(cols, props[i], bytes);
    AppendLaid(cols, props, size, b, ext, vals, i, block, Blob(bytes));
    ext' := ext[i := Extent(|b|, |b| + |block|)];
  }

  /** A list record that is well laid out reads as the list (or blob) of its elements. */
  lemma ListReads(cols: seq<Collection>, p: Property, length: nat, block: seq<byte>, ext: seq<Extent>, vals: seq<Value>)
    requires p.dataType.ElementType().Some?
    requires var element := p.dataType.ElementType().value;
             Laid(cols, ListLayout(element, p.embedded, length), element.StaticSize() * length, block, ext, vals)
    ensures ReadsAs(cols, p, block, Assemble(p.dataType, vals))
  {
    if p.dataType == ByteList {
      ByteListReads(cols, p, length, block, ext, vals);
    } else {
      var element := p.dataType.ElementType().value;
      var props, size := ListLayout(element, p.embedded, length), element.StaticSize() * length;
      assert size / element.StaticSize() == length;
      forall rest: seq<byte> ensures ReadBlock(cols, p, block + rest) == Ok(List(vals)) {
        LaidAppend(cols, props, size, block, ext, vals, rest);
        LaidReadsAll(cols, props, size, block + rest, ext, vals);
      }
    }
  }

  /** A nested record that is well laid out reads as the value it stands for. */
  lemma NestedReads(cols: seq<Collection>, p: Property, t: Tree, block: seq<byte>, ext: seq<Extent>, vals: seq<Value>)
    requires NestedLayout(cols, p, t).Some?
    requires var c := NestedLayout(cols, p, t).value; Laid(cols, c.properties, c.staticSize, block, ext, vals)
    ensures ReadsAs(cols, p, block, Assemble(p.dataType, vals))
  {
    var c := NestedLayout(cols, p, t).value;
    if t.WList? {
      ListReads(cols, p, t.length, block, ext, vals);
    } else {
      forall rest: seq<byte> ensures ReadBlock(cols, p, block + rest) == Ok(Record(vals)) {
        LaidAppend(cols, c.properties, c.staticSize, block, ext, vals, rest);
        LaidReadsAll(cols, c.properties, c.staticSize, block + rest, ext, vals);
      }
    }
  }

  /** A byte list written element by element is the blob of its elements. */
  lemma ByteListReads(cols: seq<Collection>, p: Property, length: nat, block: seq<byte>, ext: seq<Extent>,
                      vals: seq<Value>)
    requires p.dataType == ByteList
    requires Laid(cols, ListLayout(Byte, p.embedded, length), 1 * length, block, ext, vals)
    ensures ReadsAs(cols, p, block, Assemble(ByteList, vals))
  {
    var props := ListLayout(Byte, p.embedded, length);
    var bytes := seq(length, i requires 0 <= i < length => AsByte(vals[i]));
    U24RoundTrip(length);
    forall i | 0 <= i < length ensures block[3 + i] == bytes[i] {
      assert Slot(cols, block, length, props[i], ext[i], vals[i]);
      assert SlotBytes(block, props[i]) == [block[3 + i]];
    }
    assert Assemble(ByteList, vals).bytes == bytes;
    forall rest: seq<byte> ensures ReadBlock(cols, p, block + rest) == Ok(Blob(bytes)) {
      var all := block + rest;
      assert all[..3] == U24(length) && all[3..][0..length] == bytes;
    }
  }

  /** Static bytes read as the expected value. */
  lemma StaticBytesRead(p: Property, t: Tree, before: Value)
    requires StaticBytes(p.dataType, t).Some? && !BlobFits(t, p.dataType)
    ensures var raw, v := StaticBytes(p.dataType, t).value, ExpectLeaf(p, t, before);
            if p.dataType.IsDynamic() then FromLe(raw) == 0 && v == Null else v == ScalarOf(p.dataType, raw)
  {
    if t.WNull? || t.WList? {
      if p.dataType.IsDynamic() { U24RoundTrip(0); } else { NullRoundTrip(p.dataType); }
    } else {
      ScalarRoundTrip(t, p.dataType);
    }
  }

  lemma LeafLaid(cols: seq<Collection>, props: seq<Property>, size: nat, b: seq<byte>,
                 ext: seq<Extent>, vals: seq<Value>, i: nat, t: Tree)
    returns (ext': seq<Extent>)
    requires Laid(cols, props, size, b, ext, vals) && i < |props| && 3 + props[i].End() <= |b|
    requires |StoreLeaf(props[i], t, b)| < 0x100_0000
    ensures Laid(cols, props, size, StoreLeaf(props[i], t, b), ext',
                 vals[i := ExpectLeaf(props[i], t, vals[i])])
  {
    var p := props[i];
    if BlobFits(t, p.dataType) {
      ext' := AppendBlobLaid(cols, props, size, b, ext, vals, i, BlobOf(t));
    } else {
      match StaticBytes(p.dataType, t)
      case Some(raw) =>
        StaticBytesRead(p, t, vals[i]);
        PatchLaid(cols, props, size, b, ext, vals, i, raw, ExpectLeaf(p, t, vals[i]));
        ext' := ext[i := EMPTY];
      case None =>
        ext' := ext;
    }
  }

  /** One writer call keeps the layout and has exactly the expected effect. */
  lemma {:induction false} StoreLaid(cols: seq<Collection>, props: seq<Property>, size: nat, b: seq<byte>,
                                     ext: seq<Extent>, vals: seq<Value>, i: nat, t: Tree)
    returns (ext': seq<Extent>)
    requires WellFormed(cols) && EmbeddedInRange(cols, props)
    requires Laid(cols, props, size, b, ext, vals) && i < |props|
    requires |Store(cols, props[i], t, b)| < 0x100_0000
    ensures Laid(cols, props, size, Store(cols, props[i], t, b), ext',
                 vals[i := Expect(cols, props[i], t, vals[i])])
    decreases t, 2, 0
  {
    match NestedLayout(cols, props[i], t)
    case Some(c) =>
      var ws := if t.WObject? then t.fields else t.items;
      var block := Encode(cols, c, ws);
      var nested := EncodeLaid(cols, c, ws);
      var v := Assemble(props[i].dataType, ExpectObject(cols, c.properties, ws));
      NestedReads(cols, props[i], t, block, nested, ExpectObject(cols, c.properties, ws));
      AppendLaid(cols, props, size, b, ext, vals, i, block, v);
      ext' := ext[i := Extent(|b|, |b| + |block|)];
    case None =>
      ext' := LeafLaid(cols, props, size, b, ext, vals, i, t);
  }

  lemma {:induction false} CallLaid(cols: seq<Collection>, props: seq<Property>, size: nat, b: seq<byte>,
                                    ext: seq<Extent>, vals: seq<Value>, w: Write)
    returns (ext': seq<Extent>)
    requires WellFormed(cols) && EmbeddedInRange(cols, props)
    requires Laid(cols, props, size, b, ext, vals)
    requires |Call(cols, props, w, b)| < 0x100_0000
    ensures Laid(cols, props, size, Call(cols, props, w, b), ext', ExpectCall(cols, props, w, vals))
    decreases w, 3, 0
  {
    if w.index < |props| {
      ext' := StoreLaid(cols, props, size, b, ext, vals, w.index, w.tree);
    } else {
      ext' := ext;
    }
  }

  lemma {:induction false} StoreAllLaid(cols: seq<Collection>, props: seq<Property>, size: nat, b: seq<byte>,
                                        ext: seq<Extent>, vals: seq<Value>, ws: seq<Write>)
    returns (ext': seq<Extent>)
    requires WellFormed(cols) && EmbeddedInRange(cols, props)
    requires Laid(cols, props, size, b, ext, vals)
    requires |StoreAll(cols, props, ws, b)| < 0x100_0000
    ensures Laid(cols, props, size, StoreAll(cols, props, ws, b), ext', ExpectAll(cols, props, ws, vals))
    decreases ws, 0, |ws|
  {
    if ws == [] {
      ext' := ext;
    } else {
      var ext1 := CallLaid(cols, props, size, b, ext, vals, ws[0]);
      ext' := StoreAllLaid(cols, props, size, Call(cols, props, ws[0], b), ext1,
                           ExpectCall(cols, props, ws[0], vals), ws[1..]);
    }
  }

  /** Every encoded record is well laid out and reads as expected. */
  lemma {:induction false} EncodeLaid(cols: seq<Collection>, c: Collection, ws: seq<Write>)
    returns (ext: seq<Extent>)
    requires WellFormed(cols) && WellSlotted(c.properties, c.staticSize) && EmbeddedInRange(cols, c.properties)
    requires |Encode(cols, c, ws)| < 0x100_0000
    ensures Laid(cols, c.properties, c.staticSize, Encode(cols, c, ws), ext, ExpectObject(cols, c.properties, ws))
    decreases ws, 1, 0
  {
    BlankLaid(cols, c.properties, c.staticSize);
    ext := StoreAllLaid(cols, c.properties, c.staticSize, Blank(c.staticSize),
                        seq(|c.properties|, _ => EMPTY), Defaults(c.properties), ws);
  }

  /** Writing and reading back any object tree below 2^24 bytes. */
  lemma RoundTrip(cols: seq<Collection>, c: Collection, ws: seq<Write>)
    requires WellFormed(cols) && WellSlotted(c.properties, c.staticSize) && EmbeddedInRange(cols, c.properties)
    requires |Encode(cols, c, ws)| < 0x100_0000
    ensures var d := IsarDeserializer.FromBytes(Encode(cols, c, ws));
            d.Ok? && ReadAll(cols, c.properties, d.value) == Ok(ExpectObject(cols, c.properties, ws))
  {
    var ext := EncodeLaid(cols, c, ws);
    LaidReadsAll(cols, c.properties, c.staticSize, Encode(cols, c, ws), ext, ExpectObject(cols, c.properties, ws));
  }
}
