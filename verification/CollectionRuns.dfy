/**
 Whole runs of a collection. Three descriptions of a run are connected: the calls on the collection,
 what they do to the stored bytes, and what they should mean for the records the objects stand for.
 */
module CollectionRuns {
  import opened Bytes
  import opened LittleEndian
  import opened Deserializer
  import opened Layout
  import opened ObjectTree
  import opened Serializer
  import opened ObjectUpdate
  import opened UniqueIndexes
  import opened NativeCollection
  import opened IndexedObjects

  /** A call on a collection; a put brings the writer calls for its object. */
  datatype Command =
    | PutCommand(id: i64, ws: seq<Write>)
    | DeleteCommand(id: i64)
    | UpdateCommand(id: i64, changes: seq<Change>)
    | ClearCommand
    | IssueCommand

  type Records = map<i64, seq<Value>>

  datatype Setting = Setting(collections: seq<Collection>, schema: Collection, specs: seq<IndexSpec>,
                             xxh3: seq<byte> -> u64)
  {
    ghost predicate Valid() {
      && WellFormed(collections) && EmbeddedInRange(collections, schema.properties)
      && WellSlotted(schema.properties, schema.staticSize) && AllWithin(specs, schema.properties)
    }

    function OnObjects(): seq<Index<Object>>
      requires AllWithin(specs, schema.properties)
    {
      Indexes(collections, schema.properties, specs, xxh3)
    }

    function OnRecords(): seq<Index<seq<Value>>>
      requires AllWithin(specs, schema.properties)
    {
      ValueIndexes(schema.properties, specs, xxh3)
    }
  }

  // ----- what the calls do to the bytes

  ghost function Effect(s: Setting, st: State, command: Command): State
    requires s.Valid()
  {
    match command
    case PutCommand(id, ws) => Apply(s.OnObjects(), st, PutStep(id, Encode(s.collections, s.schema, ws)))
    case DeleteCommand(id) => Apply(s.OnObjects(), st, DeleteStep(id))
    case UpdateCommand(id, changes) =>
      if id in st.objects && AllLegal(s.schema.properties, changes) then
        Apply(s.OnObjects(), st, UpdateStep(id, UpdatedBytes(s, st.objects[id], changes)))
      else
        st
    case ClearCommand => Apply(s.OnObjects(), st, ClearStep)
    case IssueCommand => Apply(s.OnObjects(), st, IssueStep)
  }

  ghost function UpdatedBytes(s: Setting, o: Object, changes: seq<Change>): Object
    requires s.Valid() && AllLegal(s.schema.properties, changes)
  {
    UpdatedAll(s.schema.properties, changes, Opened(o, 0, s.schema.staticSize))
  }

  ghost function EffectAll(s: Setting, st: State, commands: seq<Command>): State
    requires s.Valid()
  {
    if commands == [] then st
    else Effect(s, EffectAll(s, st, commands[..|commands| - 1]), commands[|commands| - 1])
  }

  /** Offsets have three bytes. */
  ghost predicate Small(s: Setting, st: State, command: Command)
    requires s.Valid()
  {
    match command
    case PutCommand(_, ws) => |Encode(s.collections, s.schema, ws)| < 0x100_0000
    case UpdateCommand(id, changes) => id in st.objects ==> |st.objects[id]| + Room(changes) < 0x100_0000
    case _ => true
  }

  ghost predicate AllSmall(s: Setting, st: State, commands: seq<Command>)
    requires s.Valid()
  {
    forall i :: 0 <= i < |commands| ==> Small(s, EffectAll(s, st, commands[..i]), commands[i])
  }

  // ----- what they mean for the records

  ghost predicate Sized(s: Setting, v: Records) {
    forall x :: x in v ==> |v[x]| == |s.schema.properties|
  }

  /** The record a command stores, if it stores one. */
  ghost function NewRecord(s: Setting, v: Records, command: Command): (r: Option<seq<Value>>)
    requires Sized(s, v)
    ensures r.Some? ==> |r.value| == |s.schema.properties| && (command.PutCommand? || command.UpdateCommand?)
  {
    match command
    case PutCommand(_, ws) => Some(ExpectObject(s.collections, s.schema.properties, ws))
    case UpdateCommand(id, changes) =>
      if id in v && AllLegal(s.schema.properties, changes) then Some(NewValues(s.schema.properties, changes, v[id]))
      else None
    case _ => None
  }

  function Remaining(v: Records, command: Command): Records {
    match command
    case DeleteCommand(id) => v - {id}
    case ClearCommand => map[]
    case _ => v
  }

  /** Storing a record replaces exactly those in conflict with it. */
  ghost function Meant(s: Setting, v: Records, command: Command): (r: Records)
    requires s.Valid() && Sized(s, v)
    ensures Sized(s, r)
  {
    var record := NewRecord(s, v, command);
    if record.Some? then Replace(s.OnRecords(), v, command.id, record.value) else Remaining(v, command)
  }

  ghost function MeantAll(s: Setting, v: Records, commands: seq<Command>): (r: Records)
    requires s.Valid() && Sized(s, v)
    ensures Sized(s, r)
  {
    if commands == [] then v
    else Meant(s, MeantAll(s, v, commands[..|commands| - 1]), commands[|commands| - 1])
  }

  /** The same with the holders the code deletes. */
  ghost function Done(s: Setting, v: Records, command: Command): (r: Records)
    requires s.Valid() && Sized(s, v)
    ensures Sized(s, r)
  {
    var record := NewRecord(s, v, command);
    if record.Some? then
      After(s.OnRecords(), v, command.id, record.value)
    else
      Remaining(v, command)
  }

  ghost function DoneAll(s: Setting, v: Records, commands: seq<Command>): (r: Records)
    requires s.Valid() && Sized(s, v)
    ensures Sized(s, r)
  {
    if commands == [] then v
    else Done(s, DoneAll(s, v, commands[..|commands| - 1]), commands[|commands| - 1])
  }

  /** All records that occur in the run as it is meant are in `vs`. */
  ghost predicate Occurring(s: Setting, v: Records, commands: seq<Command>, vs: iset<seq<Value>>)
    requires s.Valid() && Sized(s, v)
  {
    && StoredFrom(vs, v)
    && forall i :: 0 <= i < |commands| ==> NewIn(s, MeantAll(s, v, commands[..i]), commands[i], vs)
  }

  ghost predicate NewIn(s: Setting, v: Records, command: Command, vs: iset<seq<Value>>)
    requires Sized(s, v)
  {
    var record := NewRecord(s, v, command);
    record.Some? ==> record.value in vs
  }

  /** No unique index mistakes a null of one record for a U+0000 of another, and no keys collide. */
  ghost predicate KeptApart(s: Setting, vs: iset<seq<Value>>)
    requires s.Valid()
  {
    Faithful(s.schema.properties, s.specs, s.xxh3, vs) && AllHarmlessValues(s.schema.properties, s.specs, vs)
  }

  lemma HarmlessRecords(s: Setting, vs: iset<seq<Value>>)
    requires s.Valid() && KeptApart(s, vs)
    ensures HarmlessAmong(s.OnRecords(), vs)
  {
    forall v, w | v in vs && w in vs ensures Harmless(s.OnRecords(), v, w) {
      HarmlessPair(s.schema.properties, s.specs, s.xxh3, vs, v, w);
    }
  }

  lemma DoneIsMeant(s: Setting, v: Records, command: Command, vs: iset<seq<Value>>)
    requires s.Valid() && Sized(s, v) && HarmlessAmong(s.OnRecords(), vs)
    requires UniqueKeys(s.OnRecords(), v) && StoredFrom(vs, v) && NewIn(s, v, command, vs)
    ensures Done(s, v, command) == Meant(s, v, command)
    ensures UniqueKeys(s.OnRecords(), Meant(s, v, command)) && StoredFrom(vs, Meant(s, v, command))
  {
    var record := NewRecord(s, v, command);
    if record.Some? {
      PutReplaces(s.OnRecords(), v, command.id, record.value);
      ReplaceKeepsUnique(s.OnRecords(), v, command.id, record.value);
    }
  }

  /** Every run over harmless records does what is meant and keeps unique entries distinct. */
  lemma {:induction false} RunIsMeant(s: Setting, v: Records, commands: seq<Command>, vs: iset<seq<Value>>)
    requires s.Valid() && Sized(s, v) && HarmlessAmong(s.OnRecords(), vs)
    requires UniqueKeys(s.OnRecords(), v) && Occurring(s, v, commands, vs)
    ensures DoneAll(s, v, commands) == MeantAll(s, v, commands)
    ensures UniqueKeys(s.OnRecords(), MeantAll(s, v, commands)) && StoredFrom(vs, MeantAll(s, v, commands))
  {
    if commands == [] {
    } else {
      var n := |commands| - 1;
      assert forall i :: 0 <= i < n ==> commands[..n][..i] == commands[..i];
      RunIsMeant(s, v, commands[..n], vs);
      DoneIsMeant(s, MeantAll(s, v, commands[..n]), commands[n], vs);
    }
  }

  // ----- bytes and records

  /** `o` is laid out, with a static section no shorter than the collection's, and holds `vals`. */
  ghost predicate StoredAs(s: Setting, o: Object, vals: seq<Value>) {
    exists size, ext :: s.schema.staticSize <= size && Laid(s.collections, s.schema.properties, size, o, ext, vals)
  }

  ghost predicate Holds(s: Setting, m: Objects, v: Records) {
    Sized(s, v) && m.Keys == v.Keys && forall x :: x in m ==> StoredAs(s, m[x], v[x])
  }

  /** Reading a stored object gives its record. */
  lemma StoredReads(s: Setting, m: Objects, v: Records, x: i64)
    requires Holds(s, m, v) && x in m
    ensures var d := IsarDeserializer.FromBytes(m[x]);
            d.Ok? && ReadAll(s.collections, s.schema.properties, d.value) == Ok(v[x])
  {
    assert StoredAs(s, m[x], v[x]);
    var size, ext :|
      s.schema.staticSize <= size && Laid(s.collections, s.schema.properties, size, m[x], ext, v[x]);
    LaidReadsAll(s.collections, s.schema.properties, size, m[x], ext, v[x]);
  }

  lemma StoredAlike(s: Setting, o: Object, vals: seq<Value>)
    requires s.Valid() && StoredAs(s, o, vals)
    ensures Alike(s.OnObjects(), s.OnRecords(), o, vals)
  {
    var size, ext :|
      s.schema.staticSize <= size && Laid(s.collections, s.schema.properties, size, o, ext, vals);
    LaidIsRead(s.collections, s.schema.properties, size, o, ext, vals);
    EntriesFollowValues(s.collections, s.schema.properties, s.specs, s.xxh3, o, vals);
  }

  lemma AllStoredAlike(s: Setting, m: Objects, v: Records)
    requires s.Valid() && Holds(s, m, v)
    ensures AllAlike(s.OnObjects(), s.OnRecords(), m, v)
  {
    forall x | x in m ensures Alike(s.OnObjects(), s.OnRecords(), m[x], v[x]) {
      StoredAlike(s, m[x], v[x]);
    }
  }

  lemma AfterHolds(s: Setting, m: Objects, v: Records, id: i64, o: Object, vals: seq<Value>)
    requires s.Valid() && Holds(s, m, v) && StoredAs(s, o, vals)
    ensures Holds(s, After(s.OnObjects(), m, id, o), After(s.OnRecords(), v, id, vals))
  {
    AllStoredAlike(s, m, v);
    StoredAlike(s, o, vals);
    AfterAlike(s.OnObjects(), s.OnRecords(), m, v, id, o, vals);
  }

  // ----- the calls

  ghost predicate Describes(s: Setting, c: NativeCollection) {
    s.Valid() && c.collections == s.collections && c.schema == s.schema && c.indexes == s.OnObjects()
  }

  method PutObject(c: NativeCollection, s: Setting, id: i64, ws: seq<Write>, ghost v: Records)
    requires Describes(s, c) && c.Exact() && Holds(s, c.primary, v)
    requires Small(s, c.Abstract(), PutCommand(id, ws))
    modifies c
    ensures c.Exact() && c.Abstract() == Effect(s, old(c.Abstract()), PutCommand(id, ws))
    ensures Holds(s, c.primary, Done(s, v, PutCommand(id, ws)))
  {
    var bytes := SerializeObject(s.collections, s.schema, ws);
    ghost var ext := EncodeLaid(s.collections, s.schema, ws);
    ghost var vals := ExpectObject(s.collections, s.schema.properties, ws);
    assert StoredAs(s, bytes, vals);
    AfterHolds(s, c.primary, v, id, bytes, vals);
    c.Put(id, bytes);
  }

  method UpdateObject(c: NativeCollection, s: Setting, id: i64, changes: seq<Change>, ghost v: Records)
    returns (r: Result<bool>)
    requires Describes(s, c) && c.Exact() && Holds(s, c.primary, v)
    requires Small(s, c.Abstract(), UpdateCommand(id, changes))
    modifies c
    ensures r.Success? <==> id !in v || AllLegal(s.schema.properties, changes)
    ensures c.Exact() && c.Abstract() == Effect(s, old(c.Abstract()), UpdateCommand(id, changes))
    ensures Holds(s, c.primary, Done(s, v, UpdateCommand(id, changes)))
  {
    ghost var before := c.primary;
    ghost var size, ext, vals := 0, [], [];
    if id in c.primary {
      assert StoredAs(s, c.primary[id], v[id]);
      size, ext :| s.schema.staticSize <= size
          && Laid(s.collections, s.schema.properties, size, c.primary[id], ext, v[id]);
      vals := v[id];
    } else {
      size := s.schema.staticSize;
    }
    ghost var ext';
    r, ext' := c.Update(id, changes, size, ext, vals);
    if r == Success(true) {
      ghost var o := UpdatedBytes(s, before[id], changes);
      assert StoredAs(s, o, NewValues(s.schema.properties, changes, vals));
      AfterHolds(s, before, v, id, o, NewValues(s.schema.properties, changes, vals));
    }
  }

  method Perform(c: NativeCollection, s: Setting, command: Command, ghost v: Records)
    requires Describes(s, c) && c.Exact() && Holds(s, c.primary, v)
    requires Small(s, c.Abstract(), command)
    modifies c
    ensures c.Exact() && c.Abstract() == Effect(s, old(c.Abstract()), command)
    ensures Holds(s, c.primary, Done(s, v, command))
  {
    match command
    case PutCommand(id, ws) =>
      PutObject(c, s, id, ws, v);
    case DeleteCommand(id) =>
      var _ := c.Delete(id);
    case UpdateCommand(id, changes) =>
      var _ := UpdateObject(c, s, id, changes, v);
    case ClearCommand =>
      c.Clear();
    case IssueCommand =>
      var _ := c.AutoIncrement();
  }

  /**
   After any commands every index holds exactly the keys of the stored objects, the bytes are those
   the calls specify, and they stand for the records the code's deletions leave. If the records that
   occur are harmless to each other, these are the records that were meant, and the entries of unique
   indexes are distinct.
   */
  method PerformAll(c: NativeCollection, s: Setting, commands: seq<Command>, ghost v: Records,
                    ghost vs: iset<seq<Value>>)
    requires Describes(s, c) && c.Exact() && Holds(s, c.primary, v)
    requires AllSmall(s, c.Abstract(), commands)
    modifies c
    ensures c.Exact() && c.Abstract() == EffectAll(s, old(c.Abstract()), commands)
    ensures Holds(s, c.primary, DoneAll(s, v, commands))
    ensures KeptApart(s, vs) && Occurring(s, v, commands, vs) && UniqueKeys(s.OnRecords(), v) ==>
              && Holds(s, c.primary, MeantAll(s, v, commands))
              && UniqueKeys(c.indexes, c.primary)
  {
    ghost var st := c.Abstract();
    for i := 0 to |commands|
      invariant c.Exact() && c.Abstract() == EffectAll(s, st, commands[..i])
      invariant Holds(s, c.primary, DoneAll(s, v, commands[..i]))
    {
      assert commands[..i + 1][..i] == commands[..i];
      Perform(c, s, commands[i], DoneAll(s, v, commands[..i]));
    }
    assert commands[..|commands|] == commands;
    if KeptApart(s, vs) && Occurring(s, v, commands, vs) && UniqueKeys(s.OnRecords(), v) {
      HarmlessRecords(s, vs);
      RunIsMeant(s, v, commands, vs);
      AllStoredAlike(s, c.primary, MeantAll(s, v, commands));
      UniqueAlike(s.OnObjects(), s.OnRecords(), c.primary, MeantAll(s, v, commands));
    }
  }
}
