/**
 Reading an object with other layouts than it was written with. A view maps the collections of the
 writer to those of the reader; every property of a reader layout either is a property of the writer
 layout (same offset, same type, mapped target) or lies behind the writer's static section.
 */
module ObjectViews {
  import opened Bytes
  import opened LittleEndian
  import opened Deserializer
  import opened Layout
  import opened ObjectTree

  /** `index[c]` is the reader's number of the writer's collection `c`, if it has one. */
  datatype View = View(writer: seq<Collection>, reader: seq<Collection>, index: seq<Option<nat>>)
  {
    function Embedded(e: Option<nat>): Option<nat> {
      if e.Some? && e.value < |index| then index[e.value] else None
    }

    function Of(p: Property): Property { p.(embedded := Embedded(p.embedded)) }

    function OfAll(props: seq<Property>): (r: seq<Property>)
      ensures |r| == |props|
    {
      seq(|props|, i requires 0 <= i < |props| => Of(props[i]))
    }

    /** The writer property that the reader property `q` reads. */
    function Source(props: seq<Property>, q: Property): (r: Option<nat>)
      ensures r.Some? ==> r.value < |props| && Of(props[r.value]) == q
      ensures r.None? ==> forall j :: 0 <= j < |props| ==> Of(props[j]) != q
    {
      if props == [] then None
      else if Of(props[|props| - 1]) == q then Some(|props| - 1)
      else Source(props[..|props| - 1], q)
    }

    ghost predicate Compatible() {
      && WellFormed(writer)
      && |index| == |writer|
      && (forall c :: 0 <= c < |writer| && index[c].Some? ==> index[c].value < |reader|)
      && forall c, q :: 0 <= c < |writer| && index[c].Some? && q in reader[index[c].value].properties ==>
           Source(writer[c].properties, q).Some? || q.offset >= writer[c].staticSize
    }

    /** The fields a reader sees of a record with the fields `vals`. */
    function Fields(props: seq<Property>, readerProps: seq<Property>, vals: seq<Value>): (r: seq<Value>)
      requires |vals| == |props|
      ensures |r| == |readerProps|
      decreases vals, 1
    {
      seq(|readerProps|, k requires 0 <= k < |readerProps| =>
        match Source(props, readerProps[k])
        case Some(j) => OfValue(props[j], vals[j])
        case None => Null)
    }

    /** The value a reader sees; only nested objects look different. */
    function OfValue(p: Property, v: Value): Value
      decreases v, 0
    {
      if v.Record? then
        if p.embedded.Some? && p.embedded.value < |writer| && |writer[p.embedded.value].properties| == |v.fields| then
          match Embedded(p.embedded)
          case Some(r) =>
            if r < |reader| then Record(Fields(writer[p.embedded.value].properties, reader[r].properties, v.fields))
            else Null
          case None => Null
        else v
      else if v.List? && p.dataType.ElementType().Some? then
        List(seq(|v.items|, i requires 0 <= i < |v.items| =>
          OfValue(ElementAt(p.dataType.ElementType().value, p.embedded, i), v.items[i])))
      else v
    }

    function OfValues(props: seq<Property>, vals: seq<Value>): (r: seq<Value>)
      requires |vals| == |props|
      ensures |r| == |props|
    {
      seq(|props|, i requires 0 <= i < |props| => OfValue(props[i], vals[i]))
    }

    /** A reader of a well laid out record sees the mapped fields, and null behind the record. */
    lemma FieldsRead(props: seq<Property>, size: nat, readerProps: seq<Property>, b: seq<byte>,
                     ext: seq<Extent>, vals: seq<Value>)
      requires |vals| == |props| && Laid(reader, OfAll(props), size, b, ext, OfValues(props, vals))
      requires forall q :: q in readerProps ==> Source(props, q).Some? || q.offset >= size
      ensures IsarDeserializer.FromBytes(b) == Ok(IsarDeserializer(b[3..], size))
      ensures ReadAll(reader, readerProps, IsarDeserializer(b[3..], size)) == Ok(Fields(props, readerProps, vals))
    {
      var d := IsarDeserializer(b[3..], size);
      U24RoundTrip(size);
      var seen := Fields(props, readerProps, vals);
      forall k | 0 <= k < |readerProps| ensures ReadProperty(reader, readerProps[k], d) == Ok(seen[k]) {
        match Source(props, readerProps[k])
        case Some(j) => LaidReads(reader, OfAll(props), size, b, ext, OfValues(props, vals), j);
        case None =>
      }
      ReadAllIs(reader, readerProps, d, seen);
    }

    lemma ListView(element: DataType, embedded: Option<nat>, length: nat)
      ensures OfAll(ListLayout(element, embedded, length)) == ListLayout(element, Embedded(embedded), length)
    {
    }

    /** The view of a list is the list of the views of its elements. */
    lemma ListOfViews(p: Property, vals: seq<Value>)
      requires p.dataType.ElementType().Some?
      ensures OfValue(p, Assemble(p.dataType, vals))
           == Assemble(p.dataType, OfValues(ListLayout(p.dataType.ElementType().value, p.embedded, |vals|), vals))
    {
      var seen := OfValues(ListLayout(p.dataType.ElementType().value, p.embedded, |vals|), vals);
      if p.dataType == ByteList {
        assert forall i :: 0 <= i < |vals| ==> AsByte(seen[i]) == AsByte(vals[i]);
        assert Assemble(ByteList, seen).bytes == Assemble(ByteList, vals).bytes;
      } else {
        assert OfValue(p, List(vals)).items == seen;
      }
    }

    /** A nested block, read through the view. */
    lemma NestedViewed(p: Property, t: Tree, block: seq<byte>, ext: seq<Extent>, vals: seq<Value>)
      requires Compatible() && NestedLayout(writer, p, t).Some?
      requires var c := NestedLayout(writer, p, t).value;
               && |vals| == |c.properties|
               && Laid(reader, OfAll(c.properties), c.staticSize, block, ext, OfValues(c.properties, vals))
      ensures ReadsAs(reader, Of(p), block, OfValue(p, Assemble(p.dataType, vals)))
    {
      var c := NestedLayout(writer, p, t).value;
      if t.WObject? {
        ObjectViewed(p, c, block, ext, vals);
      } else {
        ListView(p.dataType.ElementType().value, p.embedded, t.length);
        ListOfViews(p, vals);
        ListReads(reader, Of(p), t.length, block, ext, OfValues(c.properties, vals));
      }
    }

    lemma ObjectViewed(p: Property, c: Collection, block: seq<byte>, ext: seq<Extent>, vals: seq<Value>)
      requires Compatible() && p.dataType == Object && p.embedded.Some? && p.embedded.value < |writer|
      requires c == writer[p.embedded.value] && |vals| == |c.properties|
      requires Laid(reader, OfAll(c.properties), c.staticSize, block, ext, OfValues(c.properties, vals))
      ensures ReadsAs(reader, Of(p), block, OfValue(p, Record(vals)))
    {
      var target := Embedded(p.embedded);
      forall rest: seq<byte> ensures ReadBlock(reader, Of(p), block + rest) == Ok(OfValue(p, Record(vals))) {
        LaidAppend(reader, OfAll(c.properties), c.staticSize, block, ext, OfValues(c.properties, vals), rest);
        if target.Some? {
          FieldsRead(c.properties, c.staticSize, reader[target.value].properties, block + rest, ext, vals);
        }
      }
    }

    lemma WellSlottedView(props: seq<Property>, size: nat)
      requires WellSlotted(props, size)
      ensures WellSlotted(OfAll(props), size)
    {
    }

    /** Calls that open no record neither look at nor change the target of a property. */
    lemma LeafView(p: Property, t: Tree, b: seq<byte>, before: Value)
      requires 3 + p.End() <= |b|
      ensures ExpectLeaf(Of(p), t, OfValue(p, before)) == OfValue(p, ExpectLeaf(p, t, before))
      ensures StoreLeaf(Of(p), t, b) == StoreLeaf(p, t, b)
    {
      LeafValueView(p, t, before);
    }

    lemma LeafValueView(p: Property, t: Tree, before: Value)
      ensures ExpectLeaf(Of(p), t, OfValue(p, before)) == OfValue(p, ExpectLeaf(p, t, before))
    {
    }

    lemma ChangedValue(props: seq<Property>, vals: seq<Value>, i: nat, v: Value)
      requires |vals| == |props| && i < |props|
      ensures OfValues(props, vals[i := v]) == OfValues(props, vals)[i := OfValue(props[i], v)]
    {
    }

    lemma LeafViewed(props: seq<Property>, size: nat, b: seq<byte>,
                     ext: seq<Extent>, vals: seq<Value>, i: nat, t: Tree)
      returns (ext': seq<Extent>)
      requires |vals| == |props| && i < |props|
      requires Laid(reader, OfAll(props), size, b, ext, OfValues(props, vals)) && 3 + props[i].End() <= |b|
      requires |StoreLeaf(props[i], t, b)| < 0x100_0000
      ensures Laid(reader, OfAll(props), size, StoreLeaf(props[i], t, b), ext',
                   OfValues(props, vals[i := ExpectLeaf(props[i], t, vals[i])]))
    {
      var p := props[i];
      var v := ExpectLeaf(p, t, vals[i]);
      LeafView(p, t, b, vals[i]);
      ChangedValue(props, vals, i, v);
      ext' := LeafLaid(reader, OfAll(props), size, b, ext, OfValues(props, vals), i, t);
    }

    lemma {:induction false} StoreViewed(props: seq<Property>, size: nat, b: seq<byte>,
                                         ext: seq<Extent>, vals: seq<Value>, i: nat, t: Tree)
      returns (ext': seq<Extent>)
      requires Compatible() && EmbeddedInRange(writer, props) && |vals| == |props| && i < |props|
      requires Laid(reader, OfAll(props), size, b, ext, OfValues(props, vals)) && 3 + props[i].End() <= |b|
      requires |Store(writer, props[i], t, b)| < 0x100_0000
      ensures Laid(reader, OfAll(props), size, Store(writer, props[i], t, b), ext',
                   OfValues(props, vals[i := Expect(writer, props[i], t, vals[i])]))
      decreases t, 2, 0
    {
      var p := props[i];
      var v := Expect(writer, p, t, vals[i]);
      match NestedLayout(writer, p, t)
      case Some(c) =>
        var ws := if t.WObject? then t.fields else t.items;
        var block := Encode(writer, c, ws);
        var nested := EncodeViewed(c, ws);
        NestedViewed(p, t, block, nested, ExpectObject(writer, c.properties, ws));
        ChangedValue(props, vals, i, v);
        AppendLaid(reader, OfAll(props), size, b, ext, OfValues(props, vals), i, block, OfValue(p, v));
        ext' := ext[i := Extent(|b|, |b| + |block|)];
      case None =>
        ext' := LeafViewed(props, size, b, ext, vals, i, t);
    }

    lemma {:induction false} CallViewed(props: seq<Property>, size: nat, b: seq<byte>,
                                        ext: seq<Extent>, vals: seq<Value>, w: Write)
      returns (ext': seq<Extent>)
      requires Compatible() && EmbeddedInRange(writer, props) && |vals| == |props| && Fits(props, b)
      requires Laid(reader, OfAll(props), size, b, ext, OfValues(props, vals))
      requires |Call(writer, props, w, b)| < 0x100_0000
      ensures Laid(reader, OfAll(props), size, Call(writer, props, w, b), ext',
                   OfValues(props, ExpectCall(writer, props, w, vals)))
      decreases w, 3, 0
    {
      if w.index < |props| {
        ext' := StoreViewed(props, size, b, ext, vals, w.index, w.tree);
      } else {
        ext' := ext;
      }
    }

    lemma {:induction false} StoreAllViewed(props: seq<Property>, size: nat, b: seq<byte>,
                                            ext: seq<Extent>, vals: seq<Value>, ws: seq<Write>)
      returns (ext': seq<Extent>)
      requires Compatible() && EmbeddedInRange(writer, props) && |vals| == |props| && Fits(props, b)
      requires Laid(reader, OfAll(props), size, b, ext, OfValues(props, vals))
      requires |StoreAll(writer, props, ws, b)| < 0x100_0000
      ensures Laid(reader, OfAll(props), size, StoreAll(writer, props, ws, b), ext',
                   OfValues(props, ExpectAll(writer, props, ws, vals)))
      decreases ws, 0, |ws|
    {
      if ws == [] {
        ext' := ext;
      } else {
        var ext1 := CallViewed(props, size, b, ext, vals, ws[0]);
        ext' := StoreAllViewed(props, size, Call(writer, props, ws[0], b), ext1,
                               ExpectCall(writer, props, ws[0], vals), ws[1..]);
      }
    }

    lemma {:induction false} EncodeViewed(c: Collection, ws: seq<Write>)
      returns (ext: seq<Extent>)
      requires Compatible() && EmbeddedInRange(writer, c.properties) && WellSlotted(c.properties, c.staticSize)
      requires |Encode(writer, c, ws)| < 0x100_0000
      ensures Laid(reader, OfAll(c.properties), c.staticSize, Encode(writer, c, ws), ext,
                   OfValues(c.properties, ExpectObject(writer, c.properties, ws)))
      decreases ws, 1, 0
    {
      WellSlottedView(c.properties, c.staticSize);
      BlankLaid(reader, OfAll(c.properties), c.staticSize);
      var vals := Defaults(c.properties);
      assert OfValues(c.properties, vals) == Defaults(OfAll(c.properties));
      ext := StoreAllViewed(c.properties, c.staticSize, Blank(c.staticSize), seq(|c.properties|, _ => EMPTY), vals, ws);
    }

    /** Any object tree written with the writer's layouts, read with the reader's. */
    lemma ViewRoundTrip(c: nat, ws: seq<Write>)
      requires Compatible() && c < |writer| && index[c].Some?
      requires |Encode(writer, writer[c], ws)| < 0x100_0000
      ensures var d := IsarDeserializer.FromBytes(Encode(writer, writer[c], ws));
              var readerProps := reader[index[c].value].properties;
              d.Ok? && ReadAll(reader, readerProps, d.value)
                       == Ok(Fields(writer[c].properties, readerProps, ExpectObject(writer, writer[c].properties, ws)))
    {
      var ext := EncodeViewed(writer[c], ws);
      FieldsRead(writer[c].properties, writer[c].staticSize, reader[index[c].value].properties,
                 Encode(writer, writer[c], ws), ext, ExpectObject(writer, writer[c].properties, ws));
    }
  }
}
