/**
 What the data types hold, type by type: whatever was written before, a value of its type written
 to a property reads back as itself, and its static bytes are the ones of the format.
 */
module OwnValues {
  import opened Bytes
  import opened LittleEndian
  import opened Deserializer
  import opened Layout
  import opened ObjectTree
  import opened ValueRoundTrip

  /** `c` is a collection whose property `k` has type `t`. */
  ghost predicate Holds(cols: seq<Collection>, c: Collection, k: nat, t: DataType) {
    && WellFormed(cols) && WellSlotted(c.properties, c.staticSize) && EmbeddedInRange(cols, c.properties)
    && k < |c.properties| && c.properties[k].dataType == t
  }

  /** After the calls `ws` and then `t` for property `k`, the reader returns `v` for it. */
  ghost predicate ReadsBack(cols: seq<Collection>, c: Collection, ws: seq<Write>, k: nat, t: Tree, v: Value)
    requires WellFormed(cols) && WellSlotted(c.properties, c.staticSize) && k < |c.properties|
  {
    var b := Encode(cols, c, ws + [Write(k, t)]);
    |b| < 0x100_0000 ==>
      && IsarDeserializer.FromBytes(b).Ok?
      && ReadProperty(cols, c.properties[k], IsarDeserializer.FromBytes(b).value) == Ok(v)
  }

  lemma {:induction false} LastCall(cols: seq<Collection>, props: seq<Property>, ws: seq<Write>, w: Write,
                                    vals: seq<Value>)
    requires |vals| == |props|
    ensures ExpectAll(cols, props, ws + [w], vals) == ExpectCall(cols, props, w, ExpectAll(cols, props, ws, vals))
    decreases |ws|
  {
    if ws == [] {
      var none: seq<Write> := [];
      assert ws + [w] == [w] && [w][1..] == none;
    } else {
      assert (ws + [w])[1..] == ws[1..] + [w];
      LastCall(cols, props, ws[1..], w, ExpectCall(cols, props, ws[0], vals));
    }
  }

  lemma OwnRead(cols: seq<Collection>, c: Collection, ws: seq<Write>, k: nat, t: Tree, v: Value)
    requires k < |c.properties| && Holds(cols, c, k, c.properties[k].dataType)
    requires forall before :: Expect(cols, c.properties[k], t, before) == v
    ensures ReadsBack(cols, c, ws, k, t, v)
  {
    var all := ws + [Write(k, t)];
    if |Encode(cols, c, all)| < 0x100_0000 {
      var ext := EncodeLaid(cols, c, all);
      LastCall(cols, c.properties, ws, Write(k, t), Defaults(c.properties));
      assert ExpectObject(cols, c.properties, all)[k] == v;
      LaidReads(cols, c.properties, c.staticSize, Encode(cols, c, all), ext, ExpectObject(cols, c.properties, all), k);
    }
  }

  // ----- single values

  /** The null marker, and what it reads as: bytes have none. */
  lemma NullReads(cols: seq<Collection>, c: Collection, ws: seq<Write>, k: nat)
    requires k < |c.properties| && Holds(cols, c, k, c.properties[k].dataType)
    ensures ReadsBack(cols, c, ws, k, WNull, if c.properties[k].dataType == Byte then Number(0) else Null)
  {
    OwnRead(cols, c, ws, k, WNull, NullValue(c.properties[k].dataType));
  }

  lemma IntegersRead(cols: seq<Collection>, c: Collection, ws: seq<Write>, k: nat, octet: byte, n: i32, wide: i64)
    requires k < |c.properties| && Holds(cols, c, k, c.properties[k].dataType)
    ensures c.properties[k].dataType == Byte ==> ReadsBack(cols, c, ws, k, WByte(octet), Number(octet))
    ensures c.properties[k].dataType == Int ==>
              ReadsBack(cols, c, ws, k, WInt(n), if n == -0x8000_0000 then Null else Number(n))
    ensures c.properties[k].dataType == Long ==>
              ReadsBack(cols, c, ws, k, WLong(wide), if wide == -0x8000_0000_0000_0000 then Null else Number(wide))
  {
    if c.properties[k].dataType == Byte { OwnRead(cols, c, ws, k, WByte(octet), Number(octet)); }
    if c.properties[k].dataType == Int {
      OwnRead(cols, c, ws, k, WInt(n), if n == -0x8000_0000 then Null else Number(n));
    }
    if c.properties[k].dataType == Long {
      OwnRead(cols, c, ws, k, WLong(wide), if wide == -0x8000_0000_0000_0000 then Null else Number(wide));
    }
  }

  lemma RealsRead(cols: seq<Collection>, c: Collection, ws: seq<Write>, k: nat, single: u32, double: u64)
    requires k < |c.properties| && Holds(cols, c, k, c.properties[k].dataType)
    ensures c.properties[k].dataType == Float ==>
              ReadsBack(cols, c, ws, k, WFloat(single),
                        if single % 0x8000_0000 > 0x7F80_0000 then Null else Real(single))
    ensures c.properties[k].dataType == Double ==>
              ReadsBack(cols, c, ws, k, WDouble(double),
                        if double % 0x8000_0000_0000_0000 > 0x7FF0_0000_0000_0000 then Null else Real(double))
  {
    if c.properties[k].dataType == Float {
      OwnRead(cols, c, ws, k, WFloat(single), if single % 0x8000_0000 > 0x7F80_0000 then Null else Real(single));
    }
    if c.properties[k].dataType == Double {
      OwnRead(cols, c, ws, k, WDouble(double),
              if double % 0x8000_0000_0000_0000 > 0x7FF0_0000_0000_0000 then Null else Real(double));
    }
  }

  lemma OthersRead(cols: seq<Collection>, c: Collection, ws: seq<Write>, k: nat, b: bool, text: seq<byte>)
    requires k < |c.properties| && Holds(cols, c, k, c.properties[k].dataType)
    ensures c.properties[k].dataType == Bool ==> ReadsBack(cols, c, ws, k, WBool(b), Boolean(b))
    ensures c.properties[k].dataType in {String, Json} ==> ReadsBack(cols, c, ws, k, WString(text), Blob(text))
    ensures c.properties[k].dataType == ByteList ==> ReadsBack(cols, c, ws, k, WByteList(text), Blob(text))
  {
    if c.properties[k].dataType == Bool { OwnRead(cols, c, ws, k, WBool(b), Boolean(b)); }
    if c.properties[k].dataType in {String, Json} { OwnRead(cols, c, ws, k, WString(text), Blob(text)); }
    if c.properties[k].dataType == ByteList { OwnRead(cols, c, ws, k, WByteList(text), Blob(text)); }
  }

  /** An object of the embedded collection reads as its record. */
  lemma ObjectReads(cols: seq<Collection>, c: Collection, ws: seq<Write>, k: nat, e: nat, fields: seq<Write>)
    requires Holds(cols, c, k, Object) && c.properties[k].embedded == Some(e)
    ensures e < |cols|
    ensures ReadsBack(cols, c, ws, k, WObject(fields), Record(ExpectObject(cols, cols[e].properties, fields)))
  {
    OwnRead(cols, c, ws, k, WObject(fields), Record(ExpectObject(cols, cols[e].properties, fields)));
  }

  // ----- lists

  /** One call for every element, in order. */
  function InOrder(ts: seq<Tree>): seq<Write> {
    seq(|ts|, i requires 0 <= i < |ts| => Write(i, ts[i]))
  }

  lemma ListExpected(cols: seq<Collection>, p: Property, element: DataType, ts: seq<Tree>, vs: seq<Value>,
                     before: Value)
    requires p.dataType.ElementType() == Some(element) && |ts| == |vs|
    requires forall i, w {:trigger Expect(cols, ElementAt(element, p.embedded, i), ts[i], w)} :: 0 <= i < |ts| ==>
               Expect(cols, ElementAt(element, p.embedded, i), ts[i], w) == vs[i]
    ensures Expect(cols, p, WList(|ts|, InOrder(ts)), before) == Assemble(p.dataType, vs)
  {
    var props, ws := ListLayout(element, p.embedded, |ts|), InOrder(ts);
    forall i, w | 0 <= i < |ts| ensures Expect(cols, props[i], ws[i].tree, w) == vs[i] {
      assert Expect(cols, ElementAt(element, p.embedded, i), ts[i], w) == vs[i];
    }
    EachOnce(cols, props, ws, vs, Defaults(props), 0);
    assert ws[0..] == ws;
  }

  lemma ListRead(cols: seq<Collection>, c: Collection, ws: seq<Write>, k: nat, element: DataType, ts: seq<Tree>,
                 vs: seq<Value>)
    requires k < |c.properties| && Holds(cols, c, k, c.properties[k].dataType)
    requires c.properties[k].dataType.ElementType() == Some(element) && |ts| == |vs|
    requires forall i, w {:trigger Expect(cols, ElementAt(element, c.properties[k].embedded, i), ts[i], w)} ::
               0 <= i < |ts| ==> Expect(cols, ElementAt(element, c.properties[k].embedded, i), ts[i], w) == vs[i]
    ensures ReadsBack(cols, c, ws, k, WList(|ts|, InOrder(ts)), Assemble(c.properties[k].dataType, vs))
  {
    var p, t := c.properties[k], WList(|ts|, InOrder(ts));
    forall before ensures Expect(cols, p, t, before) == Assemble(p.dataType, vs) {
      ListExpected(cols, p, element, ts, vs, before);
    }
    OwnRead(cols, c, ws, k, t, Assemble(p.dataType, vs));
  }

  lemma BoolListReads(cols: seq<Collection>, c: Collection, ws: seq<Write>, k: nat, xs: seq<Option<bool>>)
    requires Holds(cols, c, k, BoolList)
    ensures var ts := seq(|xs|, i requires 0 <= i < |xs| => if xs[i].None? then WNull else WBool(xs[i].value));
            var vs := seq(|xs|, i requires 0 <= i < |xs| => if xs[i].None? then Null else Boolean(xs[i].value));
            ReadsBack(cols, c, ws, k, WList(|xs|, InOrder(ts)), List(vs))
  {
    var ts := seq(|xs|, i requires 0 <= i < |xs| => if xs[i].None? then WNull else WBool(xs[i].value));
    var vs := seq(|xs|, i requires 0 <= i < |xs| => if xs[i].None? then Null else Boolean(xs[i].value));
    ListRead(cols, c, ws, k, Bool, ts, vs);
  }

  /** Written byte by byte, a list of bytes reads as the same blob as written at once. */
  lemma ByteListReads(cols: seq<Collection>, c: Collection, ws: seq<Write>, k: nat, bs: seq<byte>)
    requires Holds(cols, c, k, ByteList)
    ensures var ts := seq(|bs|, i requires 0 <= i < |bs| => WByte(bs[i]));
            ReadsBack(cols, c, ws, k, WList(|bs|, InOrder(ts)), Blob(bs))
  {
    var ts := seq(|bs|, i requires 0 <= i < |bs| => WByte(bs[i]));
    var vs := seq(|bs|, i requires 0 <= i < |bs| => Number(bs[i]));
    ListRead(cols, c, ws, k, Byte, ts, vs);
    assert Assemble(ByteList, vs).bytes == bs;
  }

  lemma IntListReads(cols: seq<Collection>, c: Collection, ws: seq<Write>, k: nat, ns: seq<i32>)
    requires Holds(cols, c, k, IntList)
    ensures var ts := seq(|ns|, i requires 0 <= i < |ns| => WInt(ns[i]));
            var vs := seq(|ns|, i requires 0 <= i < |ns| => if ns[i] == -0x8000_0000 then Null else Number(ns[i]));
            ReadsBack(cols, c, ws, k, WList(|ns|, InOrder(ts)), List(vs))
  {
    var ts := seq(|ns|, i requires 0 <= i < |ns| => WInt(ns[i]));
    var vs := seq(|ns|, i requires 0 <= i < |ns| => if ns[i] == -0x8000_0000 then Null else Number(ns[i]));
    ListRead(cols, c, ws, k, Int, ts, vs);
  }

  lemma LongListReads(cols: seq<Collection>, c: Collection, ws: seq<Write>, k: nat, ns: seq<i64>)
    requires Holds(cols, c, k, LongList)
    ensures var ts := seq(|ns|, i requires 0 <= i < |ns| => WLong(ns[i]));
            var vs := seq(|ns|, i requires 0 <= i < |ns| =>
                            if ns[i] == -0x8000_0000_0000_0000 then Null else Number(ns[i]));
            ReadsBack(cols, c, ws, k, WList(|ns|, InOrder(ts)), List(vs))
  {
    var ts := seq(|ns|, i requires 0 <= i < |ns| => WLong(ns[i]));
    var vs := seq(|ns|, i requires 0 <= i < |ns| =>
                    if ns[i] == -0x8000_0000_0000_0000 then Null else Number(ns[i]));
    ListRead(cols, c, ws, k, Long, ts, vs);
  }

  lemma FloatListReads(cols: seq<Collection>, c: Collection, ws: seq<Write>, k: nat, xs: seq<u32>)
    requires Holds(cols, c, k, FloatList)
    ensures var ts := seq(|xs|, i requires 0 <= i < |xs| => WFloat(xs[i]));
            var vs := seq(|xs|, i requires 0 <= i < |xs| =>
                            if xs[i] % 0x8000_0000 > 0x7F80_0000 then Null else Real(xs[i]));
            ReadsBack(cols, c, ws, k, WList(|xs|, InOrder(ts)), List(vs))
  {
    var ts := seq(|xs|, i requires 0 <= i < |xs| => WFloat(xs[i]));
    var vs := seq(|xs|, i requires 0 <= i < |xs| =>
                    if xs[i] % 0x8000_0000 > 0x7F80_0000 then Null else Real(xs[i]));
    ListRead(cols, c, ws, k, Float, ts, vs);
  }

  lemma DoubleListReads(cols: seq<Collection>, c: Collection, ws: seq<Write>, k: nat, xs: seq<u64>)
    requires Holds(cols, c, k, DoubleList)
    ensures var ts := seq(|xs|, i requires 0 <= i < |xs| => WDouble(xs[i]));
            var vs := seq(|xs|, i requires 0 <= i < |xs| =>
                            if xs[i] % 0x8000_0000_0000_0000 > 0x7FF0_0000_0000_0000 then Null else Real(xs[i]));
            ReadsBack(cols, c, ws, k, WList(|xs|, InOrder(ts)), List(vs))
  {
    var ts := seq(|xs|, i requires 0 <= i < |xs| => WDouble(xs[i]));
    var vs := seq(|xs|, i requires 0 <= i < |xs| =>
                    if xs[i] % 0x8000_0000_0000_0000 > 0x7FF0_0000_0000_0000 then Null else Real(xs[i]));
    ListRead(cols, c, ws, k, Double, ts, vs);
  }

  lemma StringListReads(cols: seq<Collection>, c: Collection, ws: seq<Write>, k: nat, xs: seq<Option<seq<byte>>>)
    requires Holds(cols, c, k, StringList)
    ensures var ts := seq(|xs|, i requires 0 <= i < |xs| => if xs[i].None? then WNull else WString(xs[i].value));
            var vs := seq(|xs|, i requires 0 <= i < |xs| => if xs[i].None? then Null else Blob(xs[i].value));
            ReadsBack(cols, c, ws, k, WList(|xs|, InOrder(ts)), List(vs))
  {
    var ts := seq(|xs|, i requires 0 <= i < |xs| => if xs[i].None? then WNull else WString(xs[i].value));
    var vs := seq(|xs|, i requires 0 <= i < |xs| => if xs[i].None? then Null else Blob(xs[i].value));
    ListRead(cols, c, ws, k, String, ts, vs);
  }

  /** The records of a list of objects. */
  function Records(cols: seq<Collection>, props: seq<Property>, xs: seq<seq<Write>>): (r: seq<Value>)
    ensures |r| == |xs| && forall i :: 0 <= i < |xs| ==> r[i] == Record(ExpectObject(cols, props, xs[i]))
  {
    seq(|xs|, i requires 0 <= i < |xs| => Record(ExpectObject(cols, props, xs[i])))
  }

  lemma ObjectListReads(cols: seq<Collection>, c: Collection, ws: seq<Write>, k: nat, e: nat, xs: seq<seq<Write>>)
    requires Holds(cols, c, k, ObjectList) && c.properties[k].embedded == Some(e)
    ensures e < |cols|
    ensures var ts := seq(|xs|, i requires 0 <= i < |xs| => WObject(xs[i]));
            ReadsBack(cols, c, ws, k, WList(|xs|, InOrder(ts)), List(Records(cols, cols[e].properties, xs)))
  {
    var ts := seq(|xs|, i requires 0 <= i < |xs| => WObject(xs[i]));
    var vs := Records(cols, cols[e].properties, xs);
    forall i, w | 0 <= i < |xs|
      ensures Expect(cols, ElementAt(Object, c.properties[k].embedded, i), ts[i], w) == vs[i]
    {
    }
    ListRead(cols, c, ws, k, Object, ts, vs);
  }

  // ----- whatever the bytes are

  lemma {:induction false} ReadAllParts(cols: seq<Collection>, props: seq<Property>, d: IsarDeserializer, i: nat)
    requires ReadAll(cols, props, d).Ok? && i < |props|
    ensures ReadProperty(cols, props[i], d) == Ok(ReadAll(cols, props, d).value[i])
    decreases |props|
  {
    if i > 0 { ReadAllParts(cols, props[1..], d, i - 1); }
  }

  /** No record and no list. */
  predicate IsSingle(t: DataType) { (t != Object && t.ElementType().None?) || t == ByteList }

  lemma SingleIsTyped(cols: seq<Collection>, p: Property, d: IsarDeserializer, v: Value)
    requires ReadProperty(cols, p, d) == Ok(v) && IsSingle(p.dataType)
    requires p.dataType == Byte ==> d.ContainsOffset(p.offset)
    ensures Typed(cols, p, v)
  {
    Widths();
  }

  /**
   Whatever bytes are read, single values, nulls and lists of single values are values of their type; only
   a byte can be missing.
   */
  lemma ReadIsTyped(cols: seq<Collection>, p: Property, d: IsarDeserializer, v: Value)
    requires ReadProperty(cols, p, d) == Ok(v) && (p.dataType == Byte ==> d.ContainsOffset(p.offset))
    ensures IsSingle(p.dataType) || v == Null ==> Typed(cols, p, v)
    ensures p.dataType.ElementType().Some? && IsSingle(p.dataType.ElementType().value) ==> Typed(cols, p, v)
  {
    if IsSingle(p.dataType) {
      SingleIsTyped(cols, p, d, v);
    } else if p.dataType.ElementType().Some? && v != Null {
      var element := p.dataType.ElementType().value;
      if IsSingle(element) {
        var nested := IsarDeserializer.FromBytes(d.Target(p.offset).value.value).value;
        ItemsTyped(cols, p, element, nested, v.items);
      }
    }
  }

  lemma ItemsTyped(cols: seq<Collection>, p: Property, element: DataType, d: IsarDeserializer, items: seq<Value>)
    requires p.dataType != ByteList && p.dataType.ElementType() == Some(element) && IsSingle(element)
    requires var props := ListLayout(element, p.embedded, d.staticSize / element.StaticSize());
             ReadAll(cols, props, d) == Ok(items)
    ensures Typed(cols, p, List(items))
  {
    var props := ListLayout(element, p.embedded, d.staticSize / element.StaticSize());
    forall i | 0 <= i < |items| ensures Typed(cols, props[i], items[i]) {
      ReadAllParts(cols, props, d, i);
      SingleIsTyped(cols, props[i], d, items[i]);
    }
  }

  // ----- the bytes of single values

  /** Four and eight bytes as a number, written out. */
  function Four(b: seq<byte>): int
    requires |b| == 4
  {
    var b0: int, b1: int, b2: int, b3: int := b[0], b[1], b[2], b[3];
    b0 + 0x100 * b1 + 0x1_0000 * b2 + 0x100_0000 * b3
  }

  lemma FourIs(n: u32)
    ensures |ToLe(n, 4)| == 4 && Four(ToLe(n, 4)) == n
  {
    Widths();
    LeRoundTrip(n, 4);
    FourOf(ToLe(n, 4));
  }

  lemma FourOf(b: seq<byte>)
    requires |b| == 4
    ensures FromLe(b) == Four(b)
  {
    var none: seq<byte> := [];
    assert b[3..][1..] == none && b[2..][1..] == b[3..] && b[1..][1..] == b[2..];
    assert FromLe(none) == 0;
    var b3: int := FromLe(b[3..]);
    var b2: int := FromLe(b[2..]);
    assert b3 == b[3] && b2 == (b[2] as int) + 256 * b3;
  }

  lemma Associate(a: nat, b: nat, c: nat)
    ensures a * (b * c) == (a * b) * c
  {
  }

  lemma {:induction false} ZerosInFront(k: nat, r: seq<byte>)
    ensures FromLe(Zeros(k) + r) == Pow256(k) * FromLe(r)
  {
    if k == 0 {
      assert Zeros(0) + r == r;
    } else {
      ZerosInFront(k - 1, r);
      var b := Zeros(k) + r;
      assert b[0] == 0 && b[1..] == Zeros(k - 1) + r;
      Associate(256, Pow256(k - 1), FromLe(r));
    }
  }

  lemma Marker(k: nat, r: seq<byte>, n: nat)
    requires n == Pow256(k) * FromLe(r)
    ensures ToLe(n, k + |r|) == Zeros(k) + r
  {
    ZerosInFront(k, r);
    LeInverse(Zeros(k) + r);
  }

  lemma TwoBytes(a: byte, b: byte)
    ensures FromLe([a]) == a && FromLe([a, b]) == (a as int) + 256 * b
  {
    var none: seq<byte> := [];
    assert [a][1..] == none && [a, b][1..] == [b] && [b][1..] == none && FromLe(none) == 0;
  }

  lemma NarrowMarkers()
    ensures ToLe(0x8000_0000, 4) == [0, 0, 0, 0x80] && ToLe(0x7FC0_0000, 4) == [0, 0, 0xC0, 0x7F]
  {
    assert Pow256(2) == 0x1_0000 && Pow256(3) == 0x100_0000;
    TwoBytes(0x80, 0);
    TwoBytes(0xC0, 0x7F);
    Marker(3, [0x80], 0x8000_0000);
    Marker(2, [0xC0, 0x7F], 0x7FC0_0000);
  }

  lemma WideMarkers()
    ensures ToLe(0x8000_0000_0000_0000, 8) == [0, 0, 0, 0, 0, 0, 0, 0x80]
    ensures ToLe(0x7FF8_0000_0000_0000, 8) == [0, 0, 0, 0, 0, 0, 0xF8, 0x7F]
  {
    assert Pow256(6) == 0x1_0000_0000_0000 && Pow256(7) == 0x100_0000_0000_0000;
    TwoBytes(0x80, 0);
    TwoBytes(0xF8, 0x7F);
    Marker(7, [0x80], 0x8000_0000_0000_0000);
    Marker(6, [0xF8, 0x7F], 0x7FF8_0000_0000_0000);
  }

  /** The null markers of the format. */
  lemma NullMarkers()
    ensures StaticBytes(Bool, WNull) == Some([255]) && StaticBytes(Byte, WNull) == Some([0])
    ensures StaticBytes(Int, WNull) == Some([0, 0, 0, 0x80])
    ensures StaticBytes(Float, WNull) == Some([0, 0, 0xC0, 0x7F])
    ensures StaticBytes(Long, WNull) == Some([0, 0, 0, 0, 0, 0, 0, 0x80])
    ensures StaticBytes(Double, WNull) == Some([0, 0, 0, 0, 0, 0, 0xF8, 0x7F])
    ensures forall t: DataType :: t.IsDynamic() ==> StaticBytes(t, WNull) == Some([0, 0, 0])
  {
    NarrowMarkers();
    WideMarkers();
    assert U24(0) == [0, 0, 0];
  }

  /** The static bytes of booleans, bytes and four-byte numbers. */
  lemma StaticForm(b: bool, octet: byte, n: i32, single: u32)
    ensures StaticBytes(Bool, WBool(b)) == Some([if b then 1 else 0])
    ensures StaticBytes(Byte, WByte(octet)) == Some([octet])
    ensures var raw := StaticBytes(Int, WInt(n));
            raw.Some? && Four(raw.value) == if n < 0 then n + 0x1_0000_0000 else n
    ensures var raw := StaticBytes(Float, WFloat(single)); raw.Some? && Four(raw.value) == single
  {
    FourIs(Unsigned32(n));
    FourIs(single);
  }

  lemma WideForm(n: i64, double: u64)
    ensures var raw := StaticBytes(Long, WLong(n));
            raw.Some? && |raw.value| == 8 && FromLe(raw.value) == if n < 0 then n + 0x1_0000_0000_0000_0000 else n
    ensures var raw := StaticBytes(Double, WDouble(double));
            raw.Some? && |raw.value| == 8 && FromLe(raw.value) == double
  {
    Widths();
    LeRoundTrip(Unsigned64(n), 8);
    LeRoundTrip(double, 8);
  }
}
