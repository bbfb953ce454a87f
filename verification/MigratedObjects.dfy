/**
 Objects across schema versions: an object tree written at one version of the database and read at
 a later one, through any number of migrations in between.
 */
module MigratedObjects {
  import opened Bytes
  import opened Deserializer
  import opened Layout
  import opened ObjectTree
  import opened ObjectViews
  import opened Migration
  import opened OwnValues

  /** The collection's versions, with the one that wrote and the one that reads. */
  datatype Lineage = Lineage(schemas: seq<seq<PropertySchema>>, slots: seq<seq<PropertySchema>>, a: nat, b: nat) {
    ghost predicate Valid() { History(schemas, slots) && a <= b < |schemas| }
  }

  /** `c` is a collection with the given slots; the order of its properties does not matter. */
  ghost predicate LayoutFor(slots: seq<PropertySchema>, names: seq<string>, c: Collection) {
    && TargetsExist(slots, names)
    && WellSlotted(c.properties, c.staticSize)
    && c.staticSize <= OffsetOf(slots, |slots|)
    && (forall q :: q in c.properties ==>
          exists i :: 0 <= i < |slots| && slots[i].name.Some? && q == PropertyAt(slots, names, i))
    && forall i :: 0 <= i < |slots| && slots[i].name.Some? ==> PropertyAt(slots, names, i) in c.properties
  }

  ghost predicate Permutation(order: seq<nat>, n: nat) {
    && |order| == n
    && (forall k :: 0 <= k < n ==> order[k] < n)
    && (forall k, l :: 0 <= k < l < n ==> order[k] != order[l])
    && forall i :: 0 <= i < n ==> i in order
  }

  /** The properties of a collection: the entries in some order. */
  function Ordered(entries: seq<(string, Property)>, order: seq<nat>): (r: seq<Property>)
    requires forall k :: 0 <= k < |order| ==> order[k] < |entries|
    ensures |r| == |order| && forall k :: 0 <= k < |r| ==> r[k] == entries[order[k]].1
  {
    seq(|order|, k requires 0 <= k < |order| => entries[order[k]].1)
  }

  lemma OrderedCovers(slots: seq<PropertySchema>, names: seq<string>, entries: seq<(string, Property)>, order: seq<nat>)
    requires TargetsExist(slots, names) && IsLayout(slots, names, entries) && Permutation(order, |entries|)
    ensures forall q :: q in Ordered(entries, order) ==>
              exists i :: 0 <= i < |slots| && slots[i].name.Some? && q == PropertyAt(slots, names, i)
    ensures forall i :: 0 <= i < |slots| && slots[i].name.Some? ==>
        PropertyAt(slots, names, i) in Ordered(entries, order)
  {
    var named, props := Named(slots, |slots|), Ordered(entries, order);
    forall q | q in props
      ensures exists i :: 0 <= i < |slots| && slots[i].name.Some? && q == PropertyAt(slots, names, i)
    {
      var k :| 0 <= k < |props| && props[k] == q;
      assert q == PropertyAt(slots, names, named[order[k]]);
    }
    forall i | 0 <= i < |slots| && slots[i].name.Some? ensures PropertyAt(slots, names, i) in props {
      var k :| 0 <= k < |named| && named[k] == i;
      assert k in order;
      var l :| 0 <= l < |order| && order[l] == k;
      assert props[l] == PropertyAt(slots, names, i);
    }
  }

  /** What `perform_migration` builds from the slots, after sorting the properties in any way. */
  lemma OpenedLayout(slots: seq<PropertySchema>, names: seq<string>, entries: seq<(string, Property)>, size: nat,
                     order: seq<nat>)
    requires TargetsExist(slots, names) && IsLayout(slots, names, entries) && IsStaticSize(entries, size)
    requires Permutation(order, |entries|)
    ensures LayoutFor(slots, names, Collection(Ordered(entries, order), size))
  {
    LayoutWellSlotted(slots, names, entries, size);
    OrderedCovers(slots, names, entries, order);
    OrderedApart(entries, order);
  }

  lemma OrderedApart(entries: seq<(string, Property)>, order: seq<nat>)
    requires Permutation(order, |entries|)
    requires forall x, y :: 0 <= x < y < |entries| ==> entries[x].1.End() <= entries[y].1.offset
    ensures var props := Ordered(entries, order);
            forall k, l :: 0 <= k < l < |props| ==>
                props[k].End() <= props[l].offset || props[l].End() <= props[k].offset
  {
    var props := Ordered(entries, order);
    forall k, l | 0 <= k < l < |props| ensures props[k].End() <= props[l].offset || props[l].End() <= props[k].offset {
      var x, y := order[k], order[l];
      assert x < y || y < x;
    }
  }

  ghost predicate Distinct(names: seq<string>) {
    forall i, j :: 0 <= i < j < |names| ==> names[i] != names[j]
  }

  /** No objects inside. */
  predicate IsPlain(value: Value) {
    && !value.Record?
    && (value.List? ==> forall i :: 0 <= i < |value.items| ==> !value.items[i].Record? && !value.items[i].List?)
  }

  lemma {:induction false} PlainValuesUnchanged(v: View, p: Property, value: Value)
    requires IsPlain(value)
    ensures v.OfValue(p, value) == value
  {
    if value.List? && p.dataType.ElementType().Some? {
      assert v.OfValue(p, value).items == value.items;
    }
  }

  /** A record is only held by object properties with a collection, and has its fields. */
  predicate RecordFits(cols: seq<Collection>, p: Property, v: Value) {
    v.Record? ==>
      && p.dataType == Object && p.embedded.Some? && p.embedded.value < |cols|
      && |v.fields| == |cols[p.embedded.value].properties|
  }

  lemma CallFits(cols: seq<Collection>, p: Property, t: Tree, before: Value)
    requires RecordFits(cols, p, before)
    ensures RecordFits(cols, p, Expect(cols, p, t, before))
  {
  }

  lemma {:induction false} RecordsFit(cols: seq<Collection>, props: seq<Property>, ws: seq<Write>, vals: seq<Value>)
    requires |vals| == |props| && forall j :: 0 <= j < |props| ==> RecordFits(cols, props[j], vals[j])
    ensures forall j :: 0 <= j < |props| ==> RecordFits(cols, props[j], ExpectAll(cols, props, ws, vals)[j])
    decreases |ws|
  {
    if ws == [] {
    } else {
      if ws[0].index < |props| { CallFits(cols, props[ws[0].index], ws[0].tree, vals[ws[0].index]); }
      RecordsFit(cols, props, ws[1..], ExpectCall(cols, props, ws[0], vals));
    }
  }

  lemma ObjectWritten(cols: seq<Collection>, props: seq<Property>, ws: seq<Write>, j: nat, nested: seq<Write>)
    requires j < |props| && props[j].dataType == Object
    requires props[j].embedded.Some? && props[j].embedded.value < |cols|
    ensures var v := ExpectObject(cols, props, ws + [Write(j, WObject(nested))])[j];
            v.Record? && RecordFits(cols, props[j], v)
  {
    LastCall(cols, props, ws, Write(j, WObject(nested)), Defaults(props));
  }

  /** Two openings of one database; `lineages` are the collections that exist in every version between. */
  datatype Database = Database(writerNames: seq<string>, writer: seq<Collection>,
                               readerNames: seq<string>, reader: seq<Collection>,
                               lineages: map<string, Lineage>)
  {
    ghost predicate Valid() {
      && |writer| == |writerNames| && |reader| == |readerNames|
      && Distinct(writerNames) && WellFormed(writer)
      && (forall n :: n in lineages ==> n in writerNames && n in readerNames && lineages[n].Valid())
      && (forall n :: n in lineages ==>
            && LayoutFor(lineages[n].slots[lineages[n].a], writerNames, writer[IndexOf(writerNames, n)])
            && LayoutFor(lineages[n].slots[lineages[n].b], readerNames, reader[IndexOf(readerNames, n)]))
      && forall n :: n in lineages ==> TargetsSurvive(lineages[n])
    }

    /** `verify` at every version: the target of a surviving property survives as well. */
    ghost predicate TargetsSurvive(l: Lineage)
      requires l.Valid()
    {
      forall p :: p in l.slots[l.b] && p.name.Some? && p.collection.Some? && Survived(l.schemas, l.a, l.b, p) ==>
        p.collection.value in lineages
    }

    function TheView(): (v: View)
      requires forall n :: n in lineages ==> n in readerNames
    {
      View(writer, reader,
           seq(|writerNames|, c requires 0 <= c < |writerNames| =>
             if writerNames[c] in lineages then Some(IndexOf(readerNames, writerNames[c])) else None))
    }

    /** A reader property that survived is, through the view, the writer property of the same slot. */
    lemma SurvivorHasSource(n: string, i: nat)
      requires Valid() && n in lineages
      requires var l := lineages[n]; i < |l.slots[l.b]| && l.slots[l.b][i].name.Some?
      requires var l := lineages[n]; Survived(l.schemas, l.a, l.b, l.slots[l.b][i])
      ensures var l := lineages[n]; i < |l.slots[l.a]| && l.slots[l.a][i] == l.slots[l.b][i]
      ensures var l := lineages[n];
              TheView().Of(PropertyAt(l.slots[l.a], writerNames, i)) == PropertyAt(l.slots[l.b], readerNames, i)
    {
      var l := lineages[n];
      SurvivorsKeepTheirSlot(l.schemas, l.slots, l.a, l.b, i);
      OffsetsStay(l.schemas, l.slots, l.a, l.b, i);
      var p := l.slots[l.b][i];
      if p.collection.Some? {
        assert p in l.slots[l.b] && TargetsSurvive(l);
        TargetMapped(p.collection.value);
      }
    }

    lemma TargetMapped(n: string)
      requires Valid() && n in lineages
      ensures TheView().Embedded(Some(IndexOf(writerNames, n))) == Some(IndexOf(readerNames, n))
    {
    }

    lemma NewcomerLiesBehind(n: string, i: nat)
      requires Valid() && n in lineages
      requires var l := lineages[n]; i < |l.slots[l.b]| && l.slots[l.b][i].name.Some?
      requires var l := lineages[n]; !Survived(l.schemas, l.a, l.b, l.slots[l.b][i])
      ensures var l := lineages[n];
              PropertyAt(l.slots[l.b], readerNames, i).offset >= writer[IndexOf(writerNames, n)].staticSize
    {
      var l := lineages[n];
      SurvivorsKeepTheirSlot(l.schemas, l.slots, l.a, l.b, i);
      SlotsGrow(l.schemas, l.slots, l.a, l.b);
      OffsetsStay(l.schemas, l.slots, l.a, l.b, |l.slots[l.a]|);
      OffsetsGrow(l.slots[l.b], |l.slots[l.a]|, i);
    }

    lemma ViewCompatible()
      requires Valid()
      ensures TheView().Compatible()
    {
      var v := TheView();
      forall c, q | 0 <= c < |writer| && v.index[c].Some? && q in reader[v.index[c].value].properties
        ensures v.Source(writer[c].properties, q).Some? || q.offset >= writer[c].staticSize
      {
        var n := writerNames[c];
        assert IndexOf(writerNames, n) == c;
        var i := SlotOf(n, q);
        SourceExactly(n, i);
      }
    }

    lemma SlotOf(n: string, q: Property) returns (i: nat)
      requires Valid() && n in lineages && q in reader[IndexOf(readerNames, n)].properties
      ensures var l := lineages[n];
              i < |l.slots[l.b]| && l.slots[l.b][i].name.Some? && q == PropertyAt(l.slots[l.b], readerNames, i)
    {
      var l := lineages[n];
      assert LayoutFor(l.slots[l.b], readerNames, reader[IndexOf(readerNames, n)]);
      i :| 0 <= i < |l.slots[l.b]| && l.slots[l.b][i].name.Some? && q == PropertyAt(l.slots[l.b], readerNames, i);
    }

    /** The reader finds a property in old objects exactly when it survived. */
    lemma SourceExactly(n: string, i: nat)
      requires Valid() && n in lineages
      requires var l := lineages[n]; i < |l.slots[l.b]| && l.slots[l.b][i].name.Some?
      ensures var l := lineages[n];
              var c := writer[IndexOf(writerNames, n)];
              var q := PropertyAt(l.slots[l.b], readerNames, i);
              && (TheView().Source(c.properties, q).Some? <==> Survived(l.schemas, l.a, l.b, l.slots[l.b][i]))
              && (TheView().Source(c.properties, q).None? ==> q.offset >= c.staticSize)
    {
      var l := lineages[n];
      var c := writer[IndexOf(writerNames, n)];
      if Survived(l.schemas, l.a, l.b, l.slots[l.b][i]) {
        SurvivorHasSource(n, i);
        assert PropertyAt(l.slots[l.a], writerNames, i) in c.properties;
      } else {
        NewcomerLiesBehind(n, i);
      }
    }

    lemma OnePropertyPerOffset(props: seq<Property>, size: nat, p: Property, j: nat)
      requires WellSlotted(props, size) && p in props && j < |props| && props[j].offset == p.offset
      ensures props[j] == p
    {
      var k :| 0 <= k < |props| && props[k] == p;
      assert k < j || j < k || k == j;
    }

    /** The writer's property number of slot `i`. */
    lemma WriterProperty(n: string, i: nat, j: nat)
      requires Valid() && n in lineages
      requires var l := lineages[n]; i < |l.slots[l.b]| && l.slots[l.b][i].name.Some?
      requires var l := lineages[n]; Survived(l.schemas, l.a, l.b, l.slots[l.b][i])
      requires TheView().Source(writer[IndexOf(writerNames, n)].properties,
                                PropertyAt(lineages[n].slots[lineages[n].b], readerNames, i)) == Some(j)
      ensures var l := lineages[n];
              i < |l.slots[l.a]| && l.slots[l.a][i] == l.slots[l.b][i]
              && writer[IndexOf(writerNames, n)].properties[j] == PropertyAt(l.slots[l.a], writerNames, i)
    {
      var l := lineages[n];
      var props := writer[IndexOf(writerNames, n)].properties;
      SurvivorHasSource(n, i);
      var p := PropertyAt(l.slots[l.a], writerNames, i);
      assert WellSlotted(props, writer[IndexOf(writerNames, n)].staticSize);
      assert p in props;
      OnePropertyPerOffset(props, writer[IndexOf(writerNames, n)].staticSize, p, j);
    }

    /**
     The migration theorem. Whatever calls wrote the object at the old version, at the new version
     every property that survived all versions in between reads as the value written for it (unchanged
     if there are no objects in it, otherwise with these migrated in the same way; an object as an
     object), and every other property reads as null.
     */
    lemma MigrationTheorem(n: string, ws: seq<Write>, k: nat)
      returns (i: nat, fields: seq<Value>)
      requires Valid() && n in lineages && k < |reader[IndexOf(readerNames, n)].properties|
      requires |Encode(writer, writer[IndexOf(writerNames, n)], ws)| < 0x100_0000
      ensures var d := IsarDeserializer.FromBytes(Encode(writer, writer[IndexOf(writerNames, n)], ws));
              d.Ok? && ReadAll(reader, reader[IndexOf(readerNames, n)].properties, d.value) == Ok(fields)
      ensures |fields| == |reader[IndexOf(readerNames, n)].properties|
      ensures var l := lineages[n];
              && i < |l.slots[l.b]| && l.slots[l.b][i].name.Some?
              && reader[IndexOf(readerNames, n)].properties[k] == PropertyAt(l.slots[l.b], readerNames, i)
      ensures var l := lineages[n];
              var c := writer[IndexOf(writerNames, n)];
              var written := ExpectObject(writer, c.properties, ws);
              if Survived(l.schemas, l.a, l.b, l.slots[l.b][i]) then
                exists j :: && 0 <= j < |c.properties| && i < |l.slots[l.a]|
                            && l.slots[l.a][i] == l.slots[l.b][i]
                            && c.properties[j] == PropertyAt(l.slots[l.a], writerNames, i)
                            && fields[k] == TheView().OfValue(c.properties[j], written[j])
                            && (IsPlain(written[j]) ==> fields[k] == written[j])
                            && (written[j].Record? ==> fields[k].Record?)
              else
                fields[k] == Null
    {
      var l := lineages[n];
      var v := TheView();
      var c := IndexOf(writerNames, n);
      ViewCompatible();
      v.ViewRoundTrip(c, ws);
      var q := reader[IndexOf(readerNames, n)].properties[k];
      i := SlotOf(n, q);
      SourceExactly(n, i);
      fields := v.Fields(writer[c].properties, reader[IndexOf(readerNames, n)].properties,
                         ExpectObject(writer, writer[c].properties, ws));
      if Survived(l.schemas, l.a, l.b, l.slots[l.b][i]) {
        var j := v.Source(writer[c].properties, q).value;
        WriterProperty(n, i, j);
        var value := ExpectObject(writer, writer[c].properties, ws)[j];
        assert fields[k] == v.OfValue(writer[c].properties[j], value);
        SurvivorSeen(n, i, j, ws);
      }
    }

    lemma SurvivorSeen(n: string, i: nat, j: nat, ws: seq<Write>)
      requires Valid() && n in lineages && j < |writer[IndexOf(writerNames, n)].properties|
      requires var l := lineages[n]; i < |l.slots[l.b]| && l.slots[l.b][i].name.Some?
      requires var l := lineages[n]; Survived(l.schemas, l.a, l.b, l.slots[l.b][i])
      requires var l := lineages[n];
               i < |l.slots[l.a]| && l.slots[l.a][i] == l.slots[l.b][i]
               && writer[IndexOf(writerNames, n)].properties[j] == PropertyAt(l.slots[l.a], writerNames, i)
      ensures var c := writer[IndexOf(writerNames, n)];
              var value := ExpectObject(writer, c.properties, ws)[j];
              && (IsPlain(value) ==> TheView().OfValue(c.properties[j], value) == value)
              && (value.Record? ==> TheView().OfValue(c.properties[j], value).Record?)
    {
      var props := writer[IndexOf(writerNames, n)].properties;
      var value := ExpectObject(writer, props, ws)[j];
      if IsPlain(value) { PlainValuesUnchanged(TheView(), props[j], value); }
      RecordsFit(writer, props, ws, Defaults(props));
      if value.Record? { RecordSurvives(n, i, value); }
    }

    /** The collection of a surviving object property has survived as well. */
    lemma RecordSurvives(n: string, i: nat, value: Value)
      requires Valid() && n in lineages && value.Record?
      requires var l := lineages[n]; i < |l.slots[l.b]| && l.slots[l.b][i].name.Some?
      requires var l := lineages[n]; Survived(l.schemas, l.a, l.b, l.slots[l.b][i])
      requires var l := lineages[n]; i < |l.slots[l.a]| && l.slots[l.a][i] == l.slots[l.b][i]
      requires RecordFits(writer, PropertyAt(lineages[n].slots[lineages[n].a], writerNames, i), value)
      ensures var p := PropertyAt(lineages[n].slots[lineages[n].a], writerNames, i);
              && TheView().OfValue(p, value).Record?
              && lineages[n].slots[lineages[n].b][i].collection.Some?
              && lineages[n].slots[lineages[n].b][i].collection.value in readerNames
              && |TheView().OfValue(p, value).fields|
                 == |reader[IndexOf(readerNames, lineages[n].slots[lineages[n].b][i].collection.value)].properties|
    {
      var l := lineages[n];
      var p := PropertyAt(l.slots[l.a], writerNames, i);
      assert l.slots[l.b][i] in l.slots[l.b] && TargetsSurvive(l);
      var name := l.slots[l.b][i].collection.value;
      TargetMapped(name);
      RecordViewed(p, value, IndexOf(readerNames, name));
    }

    lemma RecordViewed(p: Property, value: Value, r: nat)
      requires Valid() && value.Record? && RecordFits(writer, p, value)
      requires r < |reader| && TheView().Embedded(p.embedded) == Some(r)
      ensures TheView().OfValue(p, value).Record?
      ensures |TheView().OfValue(p, value).fields| == |reader[r].properties|
    {
    }

    /**
     An object written to a property with a collection reads, if the property survived, as an object
     with the fields the collection has at the new version.
     */
    lemma ObjectSurvives(n: string, ws: seq<Write>, i: nat, j: nat, k: nat, nested: seq<Write>)
      returns (fields: seq<Value>)
      requires Valid() && n in lineages
      requires var l := lineages[n]; i < |l.slots[l.b]| && l.slots[l.b][i].name.Some?
      requires var l := lineages[n]; Survived(l.schemas, l.a, l.b, l.slots[l.b][i])
      requires var p := lineages[n].slots[lineages[n].b][i]; p.dataType == Object && p.collection.Some?
      requires var l := lineages[n];
               && j < |writer[IndexOf(writerNames, n)].properties| && i < |l.slots[l.a]|
               && l.slots[l.a][i] == l.slots[l.b][i]
               && IsSlot(l.slots[l.a], writerNames, i, writer[IndexOf(writerNames, n)].properties[j])
      requires var l := lineages[n];
               && k < |reader[IndexOf(readerNames, n)].properties|
               && IsSlot(l.slots[l.b], readerNames, i, reader[IndexOf(readerNames, n)].properties[k])
      requires |Encode(writer, writer[IndexOf(writerNames, n)], ws + [Write(j, WObject(nested))])| < 0x100_0000
      ensures var b := Encode(writer, writer[IndexOf(writerNames, n)], ws + [Write(j, WObject(nested))]);
              var d := IsarDeserializer.FromBytes(b);
              d.Ok? && ReadAll(reader, reader[IndexOf(readerNames, n)].properties, d.value) == Ok(fields)
      ensures |fields| == |reader[IndexOf(readerNames, n)].properties| && fields[k].Record?
    {
      var l := lineages[n];
      var all := ws + [Write(j, WObject(nested))];
      SlotExactly(l.slots[l.a], writerNames, i, writer[IndexOf(writerNames, n)].properties[j]);
      SlotExactly(l.slots[l.b], readerNames, i, reader[IndexOf(readerNames, n)].properties[k]);
      ObjectWritten(writer, writer[IndexOf(writerNames, n)].properties, ws, j, nested);
      fields := RecordRead(n, all, i, j, k);
    }

    lemma RecordRead(n: string, ws: seq<Write>, i: nat, j: nat, k: nat) returns (fields: seq<Value>)
      requires Valid() && n in lineages
      requires var l := lineages[n]; i < |l.slots[l.b]| && l.slots[l.b][i].name.Some?
      requires var l := lineages[n]; Survived(l.schemas, l.a, l.b, l.slots[l.b][i])
      requires var l := lineages[n];
               && j < |writer[IndexOf(writerNames, n)].properties| && i < |l.slots[l.a]|
               && l.slots[l.a][i] == l.slots[l.b][i]
               && writer[IndexOf(writerNames, n)].properties[j] == PropertyAt(l.slots[l.a], writerNames, i)
      requires var l := lineages[n];
               && k < |reader[IndexOf(readerNames, n)].properties|
               && reader[IndexOf(readerNames, n)].properties[k] == PropertyAt(l.slots[l.b], readerNames, i)
      requires var c := writer[IndexOf(writerNames, n)];
               |Encode(writer, c, ws)| < 0x100_0000 && ExpectObject(writer, c.properties, ws)[j].Record?
               && RecordFits(writer, c.properties[j], ExpectObject(writer, c.properties, ws)[j])
      ensures var d := IsarDeserializer.FromBytes(Encode(writer, writer[IndexOf(writerNames, n)], ws));
              d.Ok? && ReadAll(reader, reader[IndexOf(readerNames, n)].properties, d.value) == Ok(fields)
      ensures |fields| == |reader[IndexOf(readerNames, n)].properties| && fields[k].Record?
    {
      var c := writer[IndexOf(writerNames, n)];
      var written := ExpectObject(writer, c.properties, ws);
      ViewCompatible();
      TheView().ViewRoundTrip(IndexOf(writerNames, n), ws);
      fields := TheView().Fields(c.properties, reader[IndexOf(readerNames, n)].properties, written);
      SourceExactly(n, i);
      var j' := TheView().Source(c.properties, reader[IndexOf(readerNames, n)].properties[k]).value;
      WriterProperty(n, i, j');
      OneIndexPerProperty(c.properties, c.staticSize, j, j');
      RecordSurvives(n, i, written[j]);
    }

    lemma OneIndexPerProperty(props: seq<Property>, size: nat, j: nat, j': nat)
      requires WellSlotted(props, size) && j < |props| && j' < |props| && props[j] == props[j']
      ensures j == j'
    {
    }
  }
}
