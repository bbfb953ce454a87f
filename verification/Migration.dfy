/**
 Schema migration of the native format: properties of a collection live in append-only slots. A
 dropped property leaves a nameless hole, a retyped one leaves a hole and gets a new slot, so an
 offset never changes its meaning and old objects need not be rewritten.
 */
module Migration {
  import opened Bytes
  import opened Deserializer

  datatype PropertySchema = PropertySchema(name: Option<string>, dataType: DataType, collection: Option<string>)

  /** `IsarSchema::verify`: property names are unique. */
  ghost predicate UniqueNames(props: seq<PropertySchema>) {
    forall i, j :: 0 <= i < j < |props| && props[i].name.Some? ==> props[i].name != props[j].name
  }

  function PositionFrom(props: seq<PropertySchema>, name: Option<string>, i: nat): (r: Option<nat>)
    requires i <= |props|
    ensures r.Some? ==> i <= r.value < |props| && props[r.value].name == name
    ensures r.Some? ==> forall k :: i <= k < r.value ==> props[k].name != name
    ensures r.None? ==> forall k :: i <= k < |props| ==> props[k].name != name
    decreases |props| - i
  {
    if i == |props| then None
    else if props[i].name == name then Some(i)
    else PositionFrom(props, name, i + 1)
  }

  /** `iter().position(|p| p.name == name)`. */
  function Position(props: seq<PropertySchema>, name: Option<string>): (r: Option<nat>)
    ensures r.Some? ==> r.value < |props| && props[r.value].name == name
    ensures r.None? ==> forall k :: 0 <= k < |props| ==> props[k].name != name
  {
    PositionFrom(props, name, 0)
  }

  /** The slot is still used by the schema, under the same name and with the same type. */
  predicate Kept(props: seq<PropertySchema>, slot: PropertySchema) {
    slot.name.Some? && slot in props
  }

  /** What a slot becomes when the schema `props` is opened. */
  function Carried(props: seq<PropertySchema>, slot: PropertySchema): PropertySchema {
    if Kept(props, slot) then slot else slot.(name := None)
  }

  ghost predicate IsMerge(props: seq<PropertySchema>, slots: seq<PropertySchema>, merged: seq<PropertySchema>) {
    && |merged| >= |slots|
    && (forall i :: 0 <= i < |slots| ==> merged[i] == Carried(props, slots[i]))
    && (forall i :: |slots| <= i < |merged| ==> merged[i].name.Some? && merged[i] in props && merged[i] !in slots)
    && (forall p :: p in props && p.name.Some? ==> p in merged)
    && UniqueNames(merged)
  }

  /**
   The property part of `find_changes`. `add` are the named properties without a slot of their name
   and type, each once; `drop` the names of the slots that are given up, each once.
   */
  method FindChanges(props: seq<PropertySchema>, slots: seq<PropertySchema>)
    returns (add: seq<PropertySchema>, drop: seq<string>)
    requires UniqueNames(props) && UniqueNames(slots)
    ensures forall p :: p in add <==> p in props && p.name.Some? && p !in slots
    ensures UniqueNames(add)
    ensures forall n :: n in drop <==>
        exists i :: 0 <= i < |slots| && slots[i].name == Some(n) && !Kept(props, slots[i])
    ensures forall i, j :: 0 <= i < j < |drop| ==> drop[i] != drop[j]
  {
    add, drop := ScanSlots(props, slots);
    for i := 0 to |props|
      invariant forall p :: p in add ==> p in props && p.name.Some? && p !in slots
      invariant forall p :: p in add ==>
                  (exists k :: 0 <= k < |slots| && slots[k].name == p.name) || p in props[..i]
      invariant forall p :: p in props && p.name.Some? && p !in slots ==>
                  p in add || ((forall k :: 0 <= k < |slots| ==> slots[k].name != p.name) && p in props[i..])
      invariant UniqueNames(add)
    {
      var prop := props[i];
      if prop.name.Some? {
        if Position(slots, prop.name) == None {
          add := add + [prop];
        }
      }
    }
  }

  /** The first loop: slots whose name is gone, or in use with another type. */
  method ScanSlots(props: seq<PropertySchema>, slots: seq<PropertySchema>)
    returns (add: seq<PropertySchema>, drop: seq<string>)
    requires UniqueNames(props) && UniqueNames(slots)
    ensures forall p :: p in add ==> p in props && p.name.Some? && p !in slots
    ensures forall p :: p in add ==> exists k :: 0 <= k < |slots| && slots[k].name == p.name
    ensures forall p :: p in props && p.name.Some? && p !in slots ==>
              p in add || forall k :: 0 <= k < |slots| ==> slots[k].name != p.name
    ensures UniqueNames(add)
    ensures forall n :: n in drop <==>
        exists i :: 0 <= i < |slots| && slots[i].name == Some(n) && !Kept(props, slots[i])
    ensures forall i, j :: 0 <= i < j < |drop| ==> drop[i] != drop[j]
  {
    add, drop := [], [];
    for i := 0 to |slots|
      invariant forall p :: p in add ==> p in props && p.name.Some? && p !in slots
      invariant forall p :: p in add ==> exists k :: 0 <= k < i && slots[k].name == p.name
      invariant forall p :: p in props && p.name.Some? && p !in slots ==>
                  p in add || forall k :: 0 <= k < i ==> slots[k].name != p.name
      invariant UniqueNames(add)
      invariant forall n :: n in drop <==> exists k :: 0 <= k < i && slots[k].name == Some(n) && !Kept(props, slots[k])
      invariant forall k, l :: 0 <= k < l < |drop| ==> drop[k] != drop[l]
    {
      var oldProp := slots[i];
      if oldProp.name.Some? {
        var at := Position(props, oldProp.name);
        if at.Some? {
          var prop := props[at.value];
          if prop.dataType != oldProp.dataType || prop.collection != oldProp.collection {
            Retyped(props, slots, i, at.value);
            add := add + [prop];
            drop := drop + [prop.name.value];
          }
        } else {
          drop := drop + [oldProp.name.value];
        }
      }
    }
  }

  /** A slot whose name is in use with another type is not kept, and no other slot has that name. */
  lemma Retyped(props: seq<PropertySchema>, slots: seq<PropertySchema>, i: nat, k: nat)
    requires UniqueNames(props) && UniqueNames(slots) && i < |slots| && k < |props|
    requires slots[i].name.Some? && props[k].name == slots[i].name && props[k] != slots[i]
    ensures slots[i] !in props && props[k] !in slots
  {
  }

  const ISAR_FILE_VERSION: nat := 3

  datatype MigrationResult = VersionError | Migrated(slots: seq<PropertySchema>)

  /** `migrate_collection`: blank the dropped names, append the added properties. */
  method MigrateCollection(props: seq<PropertySchema>, slots: seq<PropertySchema>, version: nat)
    returns (r: MigrationResult)
    requires UniqueNames(props) && UniqueNames(slots)
    ensures r.VersionError? <==> version != 3
    ensures r.Migrated? ==> IsMerge(props, slots, r.slots)
  {
    if version != ISAR_FILE_VERSION {
      return VersionError;
    }
    var add, drop := FindChanges(props, slots);
    var merged := slots;
    for i := 0 to |drop|
      invariant |merged| == |slots|
      invariant forall k :: 0 <= k < |slots| ==>
                  merged[k] == if slots[k].name.Some? && slots[k].name.value in drop[..i]
                               then slots[k].(name := None) else slots[k]
    {
      var at := Position(merged, Some(drop[i]));
      assert at.Some? by {
        var k :| 0 <= k < |slots| && slots[k].name == Some(drop[i]);
        assert merged[k] == slots[k];
      }
      merged := merged[at.value := merged[at.value].(name := None)];
    }
    assert drop[..|drop|] == drop;
    Blanked(props, slots, drop, merged);
    Extended(props, slots, merged, add);
    for i := 0 to |add|
      invariant merged == Blank(props, slots) + add[..i]
    {
      merged := merged + [add[i]];
    }
    assert add[..|add|] == add;
    r := Migrated(merged);
  }

  function Blank(props: seq<PropertySchema>, slots: seq<PropertySchema>): seq<PropertySchema> {
    seq(|slots|, i requires 0 <= i < |slots| => Carried(props, slots[i]))
  }

  lemma Blanked(props: seq<PropertySchema>, slots: seq<PropertySchema>, drop: seq<string>, merged: seq<PropertySchema>)
    requires UniqueNames(slots)
    requires forall n :: n in drop <==>
        exists i :: 0 <= i < |slots| && slots[i].name == Some(n) && !Kept(props, slots[i])
    requires |merged| == |slots|
    requires forall k :: 0 <= k < |slots| ==>
               merged[k] == if slots[k].name.Some? && slots[k].name.value in drop
                            then slots[k].(name := None) else slots[k]
    ensures merged == Blank(props, slots)
  {
    forall k | 0 <= k < |slots| ensures merged[k] == Carried(props, slots[k]) {
      if slots[k].name.Some? {
        if slots[k].name.value in drop {
          var i :| 0 <= i < |slots| && slots[i].name == slots[k].name && !Kept(props, slots[i]);
          assert i == k;
        }
      }
    }
  }

  lemma Extended(props: seq<PropertySchema>, slots: seq<PropertySchema>, merged: seq<PropertySchema>,
                 add: seq<PropertySchema>)
    requires UniqueNames(props) && UniqueNames(slots) && merged == Blank(props, slots)
    requires forall p :: p in add <==> p in props && p.name.Some? && p !in slots
    requires UniqueNames(add)
    ensures IsMerge(props, slots, merged + add)
  {
    var all := merged + add;
    forall p | p in props && p.name.Some? ensures p in all {
      if p in slots {
        var i :| 0 <= i < |slots| && slots[i] == p;
        assert all[i] == p;
      } else {
        assert p in add;
      }
    }
    forall i, j | 0 <= i < j < |all| && all[i].name.Some? ensures all[i].name != all[j].name {
      if j < |slots| {
        assert all[i] == slots[i];
      } else if i < |slots| {
        assert all[i] == slots[i] && all[i] in props && all[j] in props && all[j] !in slots;
      } else {
        assert all[i] == add[i - |slots|] && all[j] == add[j - |slots|];
      }
    }
  }

  /** Bytes in front of slot `i`. */
  function OffsetOf(slots: seq<PropertySchema>, i: nat): nat
    requires i <= |slots|
  {
    if i == 0 then 0 else OffsetOf(slots, i - 1) + slots[i - 1].dataType.StaticSize()
  }

  function IndexOf(names: seq<string>, name: string): (i: nat)
    requires name in names
    ensures i < |names| && names[i] == name
  {
    if names[0] == name then 0 else 1 + IndexOf(names[1..], name)
  }

  /** `schema_names.iter().position(..).unwrap()` for object properties. */
  ghost predicate TargetsExist(slots: seq<PropertySchema>, names: seq<string>) {
    forall p :: p in slots && p.name.Some? && p.collection.Some? ==> p.collection.value in names
  }

  function PropertyAt(slots: seq<PropertySchema>, names: seq<string>, i: nat): Property
    requires i < |slots| && TargetsExist(slots, names) && slots[i].name.Some?
  {
    Property(slots[i].dataType, OffsetOf(slots, i),
             if slots[i].collection.Some? then Some(IndexOf(names, slots[i].collection.value)) else None)
  }

  /** Bytes all the slots take. */
  function TotalSize(slots: seq<PropertySchema>): nat {
    if slots == [] then 0 else slots[0].dataType.StaticSize() + TotalSize(slots[1..])
  }

  lemma {:induction false} TotalSizeSnoc(slots: seq<PropertySchema>, p: PropertySchema)
    ensures TotalSize(slots + [p]) == TotalSize(slots) + p.dataType.StaticSize()
  {
    if slots == [] {
      var none: seq<PropertySchema> := [];
      assert slots + [p] == [p] && [p][1..] == none;
    } else {
      assert (slots + [p])[1..] == slots[1..] + [p];
      TotalSizeSnoc(slots[1..], p);
    }
  }

  lemma {:induction false} OffsetIsTotal(slots: seq<PropertySchema>, i: nat)
    requires i <= |slots|
    ensures OffsetOf(slots, i) == TotalSize(slots[..i])
  {
    if i == 0 {
    } else {
      OffsetIsTotal(slots, i - 1);
      TotalSizeSnoc(slots[..i - 1], slots[i - 1]);
      assert slots[..i] == slots[..i - 1] + [slots[i - 1]];
    }
  }

  /**
   `q` is the property of slot `i`: its type, behind all the slots in front, holes included, and with
   the position of the collection it names.
   */
  ghost predicate IsSlot(slots: seq<PropertySchema>, names: seq<string>, i: nat, q: Property)
    requires i < |slots|
  {
    && q.dataType == slots[i].dataType
    && q.offset == TotalSize(slots[..i])
    && match slots[i].collection
       case None => q.embedded == None
       case Some(name) =>
         q.embedded.Some? && q.embedded.value < |names| && names[q.embedded.value] == name
         && forall e :: 0 <= e < q.embedded.value ==> names[e] != name
  }

  lemma {:induction false} IndexIsFirst(names: seq<string>, name: string)
    requires name in names
    ensures forall e :: 0 <= e < IndexOf(names, name) ==> names[e] != name
  {
    if names[0] == name {
    } else {
      IndexIsFirst(names[1..], name);
    }
  }

  lemma SlotExactly(slots: seq<PropertySchema>, names: seq<string>, i: nat, q: Property)
    requires i < |slots| && TargetsExist(slots, names) && slots[i].name.Some?
    ensures IsSlot(slots, names, i, q) <==> q == PropertyAt(slots, names, i)
  {
    OffsetIsTotal(slots, i);
    if slots[i].collection.Some? {
      assert slots[i] in slots;
      IndexIsFirst(names, slots[i].collection.value);
      if IsSlot(slots, names, i, q) {
        var e, x := q.embedded.value, IndexOf(names, slots[i].collection.value);
        assert e <= x && x <= e;
      }
    }
  }

  /** Slot numbers of the named properties, in order. */
  function Named(slots: seq<PropertySchema>, n: nat): (r: seq<nat>)
    requires n <= |slots|
    ensures forall k :: 0 <= k < |r| ==> r[k] < n && slots[r[k]].name.Some?
    ensures forall i :: 0 <= i < n && slots[i].name.Some? ==> i in r
    ensures forall k, l :: 0 <= k < l < |r| ==> r[k] < r[l]
  {
    if n == 0 then [] else Named(slots, n - 1) + if slots[n - 1].name.Some? then [n - 1] else []
  }

  /** The named properties with the offsets of their slots. */
  ghost predicate IsLayout(slots: seq<PropertySchema>, names: seq<string>, properties: seq<(string, Property)>)
    requires TargetsExist(slots, names)
  {
    var named := Named(slots, |slots|);
    && |properties| == |named|
    && forall k :: 0 <= k < |named| ==>
         properties[k] == (slots[named[k]].name.value, PropertyAt(slots, names, named[k]))
  }

  /** The end of the property with the largest offset. */
  ghost predicate IsStaticSize(properties: seq<(string, Property)>, size: nat) {
    if properties == [] then size == 0
    else exists k :: 0 <= k < |properties| && size == properties[k].1.End()
           && forall j :: 0 <= j < |properties| ==> properties[j].1.offset <= properties[k].1.offset
  }

  /** The layout of the first `n` slots. */
  ghost predicate LayoutSoFar(slots: seq<PropertySchema>, names: seq<string>, n: nat,
                              properties: seq<(string, Property)>)
    requires n <= |slots| && TargetsExist(slots, names)
  {
    && |properties| == |Named(slots, n)|
    && forall k {:trigger properties[k]} :: 0 <= k < |properties| ==>
         var i := Named(slots, n)[k];
         properties[k] == (slots[i].name.value, PropertyAt(slots, names, i))
  }

  lemma OneSlotMore(slots: seq<PropertySchema>, names: seq<string>, n: nat, properties: seq<(string, Property)>)
    requires n < |slots| && TargetsExist(slots, names) && LayoutSoFar(slots, names, n, properties)
    ensures slots[n].name.None? ==> LayoutSoFar(slots, names, n + 1, properties)
    ensures slots[n].name.Some? ==>
              LayoutSoFar(slots, names, n + 1, properties + [(slots[n].name.value, PropertyAt(slots, names, n))])
  {
    if slots[n].name.Some? {
      assert Named(slots, n + 1) == Named(slots, n) + [n];
    } else {
      assert Named(slots, n + 1) == Named(slots, n);
    }
  }

  /** `get_properties`: one running offset over all slots, holes included. */
  method GetProperties(slots: seq<PropertySchema>, names: seq<string>) returns (properties: seq<(string, Property)>)
    requires TargetsExist(slots, names)
    ensures IsLayout(slots, names, properties)
    ensures var named := Named(slots, |slots|);
            && |properties| == |named|
            && forall k {:trigger properties[k]} :: 0 <= k < |named| ==>
                 properties[k].0 == slots[named[k]].name.value && IsSlot(slots, names, named[k], properties[k].1)
  {
    properties := [];
    var offset := 0;
    for n := 0 to |slots|
      invariant offset == OffsetOf(slots, n) && LayoutSoFar(slots, names, n, properties)
    {
      OneSlotMore(slots, names, n, properties);
      if slots[n].name.Some? {
        var embedded := if slots[n].collection.Some? then Some(IndexOf(names, slots[n].collection.value)) else None;
        properties := properties + [(slots[n].name.value, Property(slots[n].dataType, offset, embedded))];
      }
      offset := offset + slots[n].dataType.StaticSize();
    }
    forall k | 0 <= k < |properties| ensures IsSlot(slots, names, Named(slots, |slots|)[k], properties[k].1) {
      SlotExactly(slots, names, Named(slots, |slots|)[k], properties[k].1);
    }
  }

  /** `NativeCollection::new`: the static section ends with the property of the largest offset. */
  method StaticSize(properties: seq<(string, Property)>) returns (size: nat)
    ensures IsStaticSize(properties, size)
  {
    if properties == [] {
      return 0;
    }
    var last := 0;
    for i := 1 to |properties|
      invariant last < |properties|
      invariant forall j :: 0 <= j < i ==> properties[j].1.offset <= properties[last].1.offset
    {
      if properties[i].1.offset >= properties[last].1.offset {
        last := i;
      }
    }
    size := properties[last].1.End();
  }

  lemma {:induction false} OffsetsGrow(slots: seq<PropertySchema>, i: nat, j: nat)
    requires i <= j <= |slots|
    ensures OffsetOf(slots, i) <= OffsetOf(slots, j)
    ensures i < j ==> OffsetOf(slots, i) + slots[i].dataType.StaticSize() <= OffsetOf(slots, j)
  {
    if i < j { OffsetsGrow(slots, i, j - 1); }
  }

  /** The properties of a layout lie side by side, in ascending order. */
  lemma LayoutAscends(slots: seq<PropertySchema>, names: seq<string>, properties: seq<(string, Property)>, k: nat,
                      l: nat)
    requires TargetsExist(slots, names) && IsLayout(slots, names, properties) && k < |properties|
    ensures k < l < |properties| ==> properties[k].1.End() <= properties[l].1.offset
    ensures properties[k].1.End() <= OffsetOf(slots, |slots|)
  {
    var named := Named(slots, |slots|);
    OffsetsGrow(slots, named[k], |slots|);
    if k < l < |properties| {
      OffsetsGrow(slots, named[k], named[l]);
    }
  }

  lemma EndsInside(properties: seq<(string, Property)>, size: nat, limit: nat)
    requires IsStaticSize(properties, size)
    requires forall k, l :: 0 <= k < l < |properties| ==> properties[k].1.End() <= properties[l].1.offset
    requires forall k :: 0 <= k < |properties| ==> properties[k].1.End() <= limit
    ensures forall k :: 0 <= k < |properties| ==> properties[k].1.End() <= size
    ensures size <= limit
  {
    if properties != [] {
      var k :| 0 <= k < |properties| && size == properties[k].1.End()
                 && forall j :: 0 <= j < |properties| ==> properties[j].1.offset <= properties[k].1.offset;
      assert forall l :: 0 <= l < |properties| ==> properties[l].1.End() <= size;
    }
  }

  /** The layout of a collection is what the object format asks for, and ends inside the slots. */
  lemma LayoutWellSlotted(slots: seq<PropertySchema>, names: seq<string>, properties: seq<(string, Property)>,
                          size: nat)
    requires TargetsExist(slots, names) && IsLayout(slots, names, properties) && IsStaticSize(properties, size)
    ensures forall k, l :: 0 <= k < l < |properties| ==> properties[k].1.End() <= properties[l].1.offset
    ensures forall k :: 0 <= k < |properties| ==> properties[k].1.End() <= size
    ensures size <= OffsetOf(slots, |slots|)
  {
    forall k | 0 <= k < |properties| ensures properties[k].1.End() <= OffsetOf(slots, |slots|) {
      LayoutAscends(slots, names, properties, k, k);
    }
    forall k, l | 0 <= k < l < |properties| ensures properties[k].1.End() <= properties[l].1.offset {
      LayoutAscends(slots, names, properties, k, l);
    }
    EndsInside(properties, size, OffsetOf(slots, |slots|));
  }

  // ----- histories

  /** `schemas[v]` is the schema of the `v`-th version ever opened and `slots[v]` what was saved. */
  ghost predicate History(schemas: seq<seq<PropertySchema>>, slots: seq<seq<PropertySchema>>) {
    && |slots| == |schemas| > 0
    && (forall v :: 0 <= v < |schemas| ==> UniqueNames(schemas[v]))
    && slots[0] == schemas[0]
    && forall v :: 0 < v < |schemas| ==> IsMerge(schemas[v], slots[v - 1], slots[v])
  }

  /** The slots of a version name exactly the properties of its schema. */
  lemma NamesOfVersion(schemas: seq<seq<PropertySchema>>, slots: seq<seq<PropertySchema>>, v: nat)
    requires History(schemas, slots) && v < |schemas|
    ensures UniqueNames(slots[v])
    ensures forall p: PropertySchema :: p.name.Some? ==> (p in slots[v] <==> p in schemas[v])
  {
    if v > 0 {
      assert IsMerge(schemas[v], slots[v - 1], slots[v]);
      forall p: PropertySchema | p.name.Some? && p in slots[v] ensures p in schemas[v] {
        var i :| 0 <= i < |slots[v]| && slots[v][i] == p;
        if i < |slots[v - 1]| { assert p == Carried(schemas[v], slots[v - 1][i]); }
      }
    }
  }

  /** Slots are append-only: a slot keeps its type for ever and only ever loses its name. */
  lemma {:induction false} SlotsGrow(schemas: seq<seq<PropertySchema>>, slots: seq<seq<PropertySchema>>, a: nat, b: nat)
    requires History(schemas, slots) && a <= b < |schemas|
    ensures |slots[a]| <= |slots[b]|
    ensures forall i :: 0 <= i < |slots[a]| ==>
              slots[b][i] == slots[a][i] || slots[b][i] == slots[a][i].(name := None)
    decreases b - a
  {
    if a < b {
      SlotsGrow(schemas, slots, a, b - 1);
      forall i | 0 <= i < |slots[a]|
        ensures slots[b][i] == slots[a][i] || slots[b][i] == slots[a][i].(name := None)
      {
        assert slots[b][i] == Carried(schemas[b], slots[b - 1][i]);
      }
    }
  }

  lemma {:induction false} OffsetsStay(schemas: seq<seq<PropertySchema>>, slots: seq<seq<PropertySchema>>, a: nat,
                                       b: nat, i: nat)
    requires History(schemas, slots) && a <= b < |schemas| && i <= |slots[a]|
    ensures i <= |slots[b]| && OffsetOf(slots[b], i) == OffsetOf(slots[a], i)
    decreases i
  {
    SlotsGrow(schemas, slots, a, b);
    if i == 0 {
    } else {
      OffsetsStay(schemas, slots, a, b, i - 1);
    }
  }

  /** The property was part of every schema from version `a` to version `b`. */
  ghost predicate Survived(schemas: seq<seq<PropertySchema>>, a: nat, b: nat, p: PropertySchema)
    requires a <= b < |schemas|
  {
    forall v :: a <= v <= b ==> p in schemas[v]
  }

  /**
   A property of version `b` lives in a slot that existed at version `a` exactly when it survived
   all versions in between; then it is the slot it had at version `a`.
   */
  lemma SurvivorsKeepTheirSlot(schemas: seq<seq<PropertySchema>>, slots: seq<seq<PropertySchema>>,
                               a: nat, b: nat, i: nat)
    requires History(schemas, slots) && a <= b < |schemas| && i < |slots[b]| && slots[b][i].name.Some?
    ensures Survived(schemas, a, b, slots[b][i]) <==> i < |slots[a]|
    ensures i < |slots[a]| ==> slots[a][i] == slots[b][i]
  {
    var p := slots[b][i];
    if i < |slots[a]| {
      forall v | a <= v <= b ensures p in schemas[v] {
        SlotsGrow(schemas, slots, a, v);
        SlotsGrow(schemas, slots, v, b);
        NamesOfVersion(schemas, slots, v);
        assert slots[v][i] == p;
      }
      SlotsGrow(schemas, slots, a, b);
    } else if Survived(schemas, a, b, p) {
      NamesOfVersion(schemas, slots, a);
      NamesOfVersion(schemas, slots, b);
      var k :| 0 <= k < |slots[a]| && slots[a][k] == p;
      Stays(schemas, slots, a, b, k);
    }
  }

  lemma {:induction false} Stays(schemas: seq<seq<PropertySchema>>, slots: seq<seq<PropertySchema>>, a: nat, b: nat,
                                 k: nat)
    requires History(schemas, slots) && a <= b < |schemas| && k < |slots[a]| && slots[a][k].name.Some?
    requires Survived(schemas, a, b, slots[a][k])
    ensures k < |slots[b]| && slots[b][k] == slots[a][k]
    decreases b - a
  {
    if a < b {
      Stays(schemas, slots, a, b - 1, k);
      assert slots[b][k] == Carried(schemas[b], slots[b - 1][k]);
    }
  }

  /**
   Reading, at version `b`, an object whose static section was sized at version `a`: a property that
   survived sits at the same offset with the same type; every other one reads as null, whatever
   bytes the object has.
   */
  lemma ReadAcrossVersions(schemas: seq<seq<PropertySchema>>, slots: seq<seq<PropertySchema>>,
                           a: nat, b: nat, i: nat, names: seq<string>, cols: seq<Collection>, d: IsarDeserializer)
    requires History(schemas, slots) && a <= b < |schemas| && i < |slots[b]| && slots[b][i].name.Some?
    requires TargetsExist(slots[b], names)
    requires d.staticSize <= OffsetOf(slots[a], |slots[a]|)
    ensures Survived(schemas, a, b, slots[b][i]) ==>
              && i < |slots[a]| && slots[a][i] == slots[b][i]
              && PropertyAt(slots[b], names, i).offset == OffsetOf(slots[a], i)
    ensures !Survived(schemas, a, b, slots[b][i]) ==>
              ReadProperty(cols, PropertyAt(slots[b], names, i), d) == Ok(Null)
  {
    SurvivorsKeepTheirSlot(schemas, slots, a, b, i);
    if i < |slots[a]| {
      OffsetsStay(schemas, slots, a, b, i);
    } else {
      SlotsGrow(schemas, slots, a, b);
      OffsetsStay(schemas, slots, a, b, |slots[a]|);
      OffsetsGrow(slots[b], |slots[a]|, i);
    }
  }
}
