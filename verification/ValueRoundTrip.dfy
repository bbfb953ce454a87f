/**
 The round trip stated on values: any value tree a reader can produce is what the reader produces
 after the tree has been written. Byte lists have two encodings and two readers, all compatible.
 */
module ValueRoundTrip {
  import opened Bytes
  import opened LittleEndian
  import opened Deserializer
  import opened Layout
  import opened ObjectTree

  /** The properties under a record or list value of property `p`. */
  function Children(cols: seq<Collection>, p: Property, n: nat): seq<Property> {
    if p.dataType == Object then
      if p.embedded.Some? && p.embedded.value < |cols| then cols[p.embedded.value].properties else []
    else if p.dataType.ElementType().Some? then ListLayout(p.dataType.ElementType().value, p.embedded, n)
    else []
  }

  /** `v` is a value of property `p`; the sentinels and NaNs are not values but null. */
  predicate Typed(cols: seq<Collection>, p: Property, v: Value)
    decreases v
  {
    match v
    case Null => p.dataType != Byte
    case Boolean(_) => p.dataType == Bool
    case Number(n) =>
      || (p.dataType == Byte && 0 <= n < 0x100)
      || (p.dataType == Int && NULL_INT < n < TWO31)
      || (p.dataType == Long && NULL_LONG < n < TWO63)
    case Real(bits) =>
      || (p.dataType == Float && bits < TWO32 && !IsNan32(bits))
      || (p.dataType == Double && bits < TWO64 && !IsNan64(bits))
    case Blob(_) => p.dataType in {String, Json, ByteList}
    case Record(fields) =>
      && p.dataType == Object && p.embedded.Some? && p.embedded.value < |cols|
      && |fields| == |Children(cols, p, 0)|
      && forall i | 0 <= i < |fields| :: Typed(cols, Children(cols, p, 0)[i], fields[i])
    case List(items) =>
      && p.dataType.ElementType().Some? && p.dataType != ByteList
      && forall i | 0 <= i < |items| :: Typed(cols, Children(cols, p, |items|)[i], items[i])
  }

  predicate AllTyped(cols: seq<Collection>, props: seq<Property>, vals: seq<Value>) {
    |vals| == |props| && forall i | 0 <= i < |vals| :: Typed(cols, props[i], vals[i])
  }

  /** The writer calls for a value. */
  function TreeOf(cols: seq<Collection>, p: Property, v: Value): Tree
    requires Typed(cols, p, v)
    decreases v
  {
    match v
    case Null => WNull
    case Boolean(b) => WBool(b)
    case Number(n) => if p.dataType == Byte then WByte(n) else if p.dataType == Int then WInt(n) else WLong(n)
    case Real(bits) => if p.dataType == Float then WFloat(bits) else WDouble(bits)
    case Blob(bytes) => if p.dataType == ByteList then WByteList(bytes) else WString(bytes)
    case Record(fields) =>
      WObject(seq(|fields|, i requires 0 <= i < |fields| => Write(i, TreeOf(cols, Children(cols, p, 0)[i], fields[i]))))
    case List(items) =>
      WList(|items|, seq(|items|,
          i requires 0 <= i < |items| => Write(i, TreeOf(cols, Children(cols, p, |items|)[i], items[i]))))
  }

  function WritesOf(cols: seq<Collection>, props: seq<Property>, vals: seq<Value>): seq<Write>
    requires AllTyped(cols, props, vals)
  {
    seq(|vals|, i requires 0 <= i < |vals| => Write(i, TreeOf(cols, props[i], vals[i])))
  }

  /** Writing every property once leaves exactly those values. */
  lemma {:induction false} EachOnce(cols: seq<Collection>, props: seq<Property>, ws: seq<Write>, vals: seq<Value>,
                                    before: seq<Value>, k: nat)
    requires |ws| == |vals| == |props| == |before| && k <= |ws|
    requires forall i :: 0 <= i < |ws| ==> ws[i].index == i
    requires forall i, v :: 0 <= i < |ws| ==> Expect(cols, props[i], ws[i].tree, v) == vals[i]
    requires before[..k] == vals[..k]
    ensures ExpectAll(cols, props, ws[k..], before) == vals
    decreases |ws| - k
  {
    if k < |ws| {
      assert ws[k..][0] == ws[k] && ws[k..][1..] == ws[k + 1..];
      var after := before[k := vals[k]];
      assert ExpectCall(cols, props, ws[k], before) == after;
      assert after[..k + 1] == after[..k] + [vals[k]] == vals[..k + 1];
      EachOnce(cols, props, ws, vals, after, k + 1);
    } else {
      assert before[..k] == before && vals[..k] == vals;
    }
  }

  lemma {:induction false} ExpectTree(cols: seq<Collection>, p: Property, v: Value, before: Value)
    requires Typed(cols, p, v)
    ensures Expect(cols, p, TreeOf(cols, p, v), before) == v
    decreases v
  {
    if v.Record? || v.List? {
      var vals := if v.Record? then v.fields else v.items;
      var props := Children(cols, p, |vals|);
      forall i, w | 0 <= i < |vals| ensures Expect(cols, props[i], TreeOf(cols, props[i], vals[i]), w) == vals[i] {
        ExpectTree(cols, props[i], vals[i], w);
      }
      var t := TreeOf(cols, p, v);
      var ws := if t.WObject? then t.fields else t.items;
      assert forall i :: 0 <= i < |ws| ==> ws[i] == Write(i, TreeOf(cols, props[i], vals[i]));
      EachOnce(cols, props, ws, vals, Defaults(props), 0);
      assert ws[0..] == ws;
      assert Expect(cols, p, t, before) == Assemble(p.dataType, ExpectObject(cols, props, ws));
    }
  }

  /** decode(encode(v)) == v for every object of every schema, up to the size limit of the format. */
  lemma TreeRoundTrip(cols: seq<Collection>, c: Collection, vals: seq<Value>)
    requires WellFormed(cols) && WellSlotted(c.properties, c.staticSize) && EmbeddedInRange(cols, c.properties)
    requires AllTyped(cols, c.properties, vals)
    requires |Encode(cols, c, WritesOf(cols, c.properties, vals))| < 0x100_0000
    ensures var d := IsarDeserializer.FromBytes(Encode(cols, c, WritesOf(cols, c.properties, vals)));
            d.Ok? && ReadAll(cols, c.properties, d.value) == Ok(vals)
  {
    var ws := WritesOf(cols, c.properties, vals);
    RoundTrip(cols, c, ws);
    forall i, w | 0 <= i < |vals| ensures Expect(cols, c.properties[i], ws[i].tree, w) == vals[i] {
      ExpectTree(cols, c.properties[i], vals[i], w);
    }
    EachOnce(cols, c.properties, ws, vals, Defaults(c.properties), 0);
    assert ws[0..] == ws;
  }

  /** Two different objects never get the same bytes. */
  lemma EncodingInjective(cols: seq<Collection>, c: Collection, vals: seq<Value>, vals': seq<Value>)
    requires WellFormed(cols) && WellSlotted(c.properties, c.staticSize) && EmbeddedInRange(cols, c.properties)
    requires AllTyped(cols, c.properties, vals) && AllTyped(cols, c.properties, vals')
    requires |Encode(cols, c, WritesOf(cols, c.properties, vals))| < 0x100_0000
    requires Encode(cols, c, WritesOf(cols, c.properties, vals)) == Encode(cols, c, WritesOf(cols, c.properties, vals'))
    ensures vals == vals'
  {
    TreeRoundTrip(cols, c, vals);
    TreeRoundTrip(cols, c, vals');
  }

  /**
   `read_list` on a byte list block sees the bytes `read_dynamic` sees, whichever way it was
   written: the block of a blob is a list record without further sections.
   */
  lemma ByteListBothReaders(cols: seq<Collection>, block: seq<byte>, embedded: Option<nat>)
    requires ReadBlob(block).Ok?
    ensures var d := IsarDeserializer.FromBytes(block).value;
            var bytes := ReadBlob(block).value;
            && |bytes| == d.staticSize / Byte.StaticSize()
            && ReadAll(cols, ListLayout(Byte, embedded, |bytes|), d)
               == Ok(seq(|bytes|, i requires 0 <= i < |bytes| => Number(bytes[i])))
  {
    var d := IsarDeserializer.FromBytes(block).value;
    var bytes := ReadBlob(block).value;
    var props := ListLayout(Byte, embedded, |bytes|);
    var vals := seq(|bytes|, i requires 0 <= i < |bytes| => Number(bytes[i]));
    forall i | 0 <= i < |props| ensures ReadProperty(cols, props[i], d) == Ok(vals[i]) {
      assert d.bytes[i..i + 1] == [bytes[i]];
    }
    ReadAllIs(cols, props, d, vals);
  }
}
