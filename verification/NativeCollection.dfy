/**
 A collection with its secondary indexes: the primary database maps ids to objects, every index
 database holds a (key, id) pair for every object.
 */
module NativeCollection {
  import opened Bytes
  import opened LittleEndian
  import opened KeyOrder
  import opened IndexKeyOrder
  import opened UniqueIndexes
  import opened Deserializer
  import opened Layout
  import opened Serializer
  import opened ObjectUpdate

  const MAX_ID: i64 := TWO63 - 1

  /** `id + 1` in 64 bits. */
  function Incremented(id: i64): i64 { if id == MAX_ID then -TWO63 else id + 1 }

  function Max(a: i64, b: i64): i64 { if a < b then b else a }

  /** `move_to` on an index: the first duplicate of the key. */
  method FirstDuplicate(entries: set<IndexEntry>, key: seq<byte>) returns (r: Option<i64>)
    ensures IdsOf(entries, key) == {} ==> r.None?
    ensures IdsOf(entries, key) != {} ==> r == Some(First(IdsOf(entries, key)))
  {
    var rest := IdsOf(entries, key);
    ghost var seen: set<i64> := {};
    r := None;
    while rest != {}
      invariant seen + rest == IdsOf(entries, key)
      invariant if r.None? then seen == {} else IsFirst(seen, r.value)
      decreases |rest|
    {
      var x :| x in rest;
      var isLess := r.None? || CompareBytes(ToIdBytes(x), ToIdBytes(r.value)) == Less;
      FirstSoFar(seen, r, x, isLess);
      if isLess {
        r := Some(x);
      }
      rest, seen := rest - {x}, seen + {x};
    }
    if r.Some? {
      FirstUnique(seen, r.value, First(seen));
    }
  }

  lemma FirstSoFar(ids: set<i64>, r: Option<i64>, x: i64, isLess: bool)
    requires if r.None? then ids == {} && isLess else
               IsFirst(ids, r.value) && (isLess <==> CompareBytes(ToIdBytes(x), ToIdBytes(r.value)) == Less)
    ensures IsFirst(ids + {x}, if isLess then x else r.value)
  {
    CompareEqual(ToIdBytes(x), ToIdBytes(x));
    if isLess {
      forall y | y in ids ensures NotBehind(x, y) {
        assert r.None? || NotBehind(r.value, y);
        CompareTransitive(ToIdBytes(x), ToIdBytes(r.value), ToIdBytes(y));
      }
    } else {
      CompareFlip(ToIdBytes(x), ToIdBytes(r.value));
    }
  }

  /** `move_to_last` on the primary database, whose keys are the ids as integers. */
  method LastId(objects: Objects) returns (r: Option<i64>)
    ensures objects == map[] ==> r.None?
    ensures objects != map[] ==> r.Some? && r.value in objects && forall x :: x in objects ==> x <= r.value
  {
    var rest := objects.Keys;
    r := None;
    while rest != {}
      invariant rest <= objects.Keys
      invariant if r.None? then rest == objects.Keys else
                  r.value in objects && forall x :: x in objects && x !in rest ==> x <= r.value
      decreases |rest|
    {
      var x :| x in rest;
      IdKeys(x, if r.Some? then r.value else 0);
      if r.None? || CompareKeys(true, ToIdBytes(x), ToIdBytes(r.value)) == Greater {
        r := Some(x);
      }
      rest := rest - {x};
    }
  }

  // ----- runs

  /** `issued` are the ids handed out since the collection was opened. */
  datatype State = State(objects: Objects, counter: i64, issued: set<i64>)

  datatype Step =
    | PutStep(id: i64, o: Object)
    | DeleteStep(id: i64)
    | UpdateStep(id: i64, o: Object)
    | ClearStep
    | IssueStep
    | ReopenStep

  ghost function Stored(indexes: seq<Index<Object>>, s: State, id: i64, o: Object): State {
    s.(objects := After(indexes, s.objects, id, o), counter := Max(s.counter, Incremented(id)))
  }

  ghost function Apply(indexes: seq<Index<Object>>, s: State, step: Step): State {
    match step
    case PutStep(id, o) => Stored(indexes, s, id, o)
    case DeleteStep(id) => s.(objects := s.objects - {id})
    case UpdateStep(id, o) => if id in s.objects then Stored(indexes, s, id, o) else s
    case ClearStep => s.(objects := map[])
    case IssueStep => s.(counter := Incremented(s.counter), issued := s.issued + {s.counter})
    case ReopenStep => State(s.objects, CounterFor(s.objects), {})
  }

  ghost function CounterFor(objects: Objects): (c: i64)
    ensures objects == map[] ==> c == 1
    ensures (forall x :: x in objects ==> x < MAX_ID) ==> forall x :: x in objects ==> x < c
    ensures objects != map[] ==> exists x :: x in objects && c == Incremented(x)
  {
    if objects == map[] then 1
    else
      LargestExists(objects.Keys);
      var x :| x in objects && forall y :: y in objects ==> y <= x;
      Incremented(x)
  }

  lemma {:induction false} LargestExists(ids: set<i64>)
    requires ids != {}
    ensures exists x :: x in ids && forall y :: y in ids ==> y <= x
    decreases |ids|
  {
    var a :| a in ids;
    var others := ids - {a};
    if others == {} {
      assert ids == {a};
    } else {
      LargestExists(others);
      var b :| b in others && forall y :: y in others ==> y <= b;
      forall y | y in ids ensures y <= Max(a, b) {
        assert y == a || y in others;
      }
      assert Max(a, b) in ids;
    }
  }

  lemma HolderGone(ix: Index<Object>, id: i64, o: Object, holder: i64, others: Objects)
    requires holder in others && id !in others
    ensures EntriesOf(ix, others - {holder}) == EntriesOf(ix, others) - {(ix.Key(others[holder]), holder)}
    ensures EntriesOf(ix, (others - {holder})[id := o])
        == EntriesOf(ix, others[id := o]) - {(ix.Key(others[holder]), holder)}
  {
    EntriesWithout(ix, others, holder);
    EntriesWithout(ix, others[id := o], holder);
    assert others[id := o] - {holder} == (others - {holder})[id := o];
  }

  // ----- the collection

  class NativeCollection {
    const indexes: seq<Index<Object>>
    const collections: seq<Collection>
    const schema: Collection
    var primary: Objects
    var entries: seq<set<IndexEntry>>
    var autoIncrement: i64
    ghost var issued: set<i64>

    /** Every index holds exactly the keys of the stored objects. */
    ghost predicate Exact()
      reads this
    {
      |entries| == |indexes| && forall i :: 0 <= i < |indexes| ==> entries[i] == EntriesOf(indexes[i], primary)
    }

    ghost function Abstract(): State
      reads this
    {
      State(primary, autoIncrement, issued)
    }

    /** Open the databases and set the counter. */
    constructor (collections: seq<Collection>, schema: Collection, indexes: seq<Index<Object>>,
                 primary: Objects, entries: seq<set<IndexEntry>>)
      requires |entries| == |indexes| && forall i :: 0 <= i < |indexes| ==> entries[i] == EntriesOf(indexes[i], primary)
      ensures Exact() && this.indexes == indexes && this.collections == collections && this.schema == schema
      ensures forall s: State :: s.objects == primary ==> Abstract() == Apply(indexes, s, ReopenStep)
    {
      this.collections, this.schema, this.indexes := collections, schema, indexes;
      this.primary, this.entries, this.issued := primary, entries, {};
      autoIncrement := 1;
      new;
      var last := LastId(primary);
      if last.Some? {
        autoIncrement := Incremented(last.value);
      }
    }

    method AutoIncrement() returns (id: i64)
      modifies `autoIncrement, `issued
      ensures id == old(autoIncrement)
      ensures Abstract() == Apply(indexes, old(Abstract()), IssueStep)
    {
      id := autoIncrement;
      autoIncrement := Incremented(autoIncrement);
      issued := issued + {id};
    }

    method UpdateAutoIncrement(id: i64)
      modifies `autoIncrement
      ensures autoIncrement == Max(old(autoIncrement), Incremented(id))
    {
      autoIncrement := Max(autoIncrement, Incremented(id));
    }

    /** `delete_for_object` on index `i`. */
    method DeleteForObject(i: nat, id: i64, o: Object)
      requires |entries| == |indexes| && i < |indexes|
      modifies `entries
      ensures entries == old(entries)[i := old(entries)[i] - {(indexes[i].Key(o), id)}]
    {
      var key, _ := CreateKey(indexes[i].read(o), indexes[i].hash, indexes[i].xxh3);
      if (key, id) in entries[i] {
        entries := entries[i := entries[i] - {(key, id)}];
      } else {
        assert entries[i] - {(key, id)} == entries[i];
        assert entries[i := entries[i]] == entries;
      }
    }

    method DeleteEntries(id: i64, o: Object)
      requires |entries| == |indexes|
      modifies `entries
      ensures |entries| == |indexes|
      ensures forall i :: 0 <= i < |indexes| ==> entries[i] == old(entries)[i] - {(indexes[i].Key(o), id)}
    {
      for i := 0 to |indexes|
        invariant |entries| == |indexes|
        invariant forall k :: 0 <= k < |indexes| ==>
                    entries[k] == if k < i then old(entries)[k] - {(indexes[k].Key(o), id)} else old(entries)[k]
      {
        DeleteForObject(i, id, o);
      }
    }

    /** The contract does not need the indexes to be exact: a put calls this halfway. */
    method Delete(id: i64) returns (deleted: bool)
      requires |entries| == |indexes|
      modifies `primary, `entries
      ensures deleted <==> id in old(primary)
      ensures |entries| == |indexes| && Abstract() == Apply(indexes, old(Abstract()), DeleteStep(id))
      ensures forall i :: 0 <= i < |indexes| ==>
                entries[i] == old(entries)[i] - if deleted then {(indexes[i].Key(old(primary)[id]), id)} else {}
      ensures old(Exact()) ==> Exact()
    {
      deleted := id in primary;
      if deleted {
        DeleteEntries(id, primary[id]);
        primary := primary - {id};
        forall i | 0 <= i < |indexes| {
          EntriesWithout(indexes[i], old(primary), id);
        }
      } else {
        assert primary - {id} == primary;
      }
    }

    /** The new entries of `o` are in the first `j` indexes, the old ones of `id` in none. */
    ghost predicate Halfway(id: i64, o: Object, j: nat, others: Objects)
      reads this
    {
      && |entries| == |indexes| && others == primary - {id}
      && forall i :: 0 <= i < |indexes| ==>
          entries[i] == EntriesOf(indexes[i], if i < j then others[id := o] else others)
    }

    /** `create_for_object` on index `j`; a holder of a unique key is deleted from the collection. */
    method CreateForObject(j: nat, id: i64, o: Object, ghost others: Objects)
      requires j < |indexes| && Halfway(id, o, j, others)
      modifies `primary, `entries
      ensures Halfway(id, o, j + 1, Evict(indexes[j], others, o))
    {
      var key, containsNull := CreateKey(indexes[j].read(o), indexes[j].hash, indexes[j].xxh3);
      ghost var rest := others;
      if indexes[j].unique && !containsNull {
        HoldersFound(indexes[j], others, key);
        var holder := FirstDuplicate(entries[j], key);
        if holder.Some? {
          DeleteHolder(j, id, o, holder.value, others);
          rest := others - {holder.value};
        }
      }
      EntriesWith(indexes[j], rest, id, o);
      entries := entries[j := entries[j] + {(key, id)}];
    }

    method DeleteHolder(j: nat, id: i64, o: Object, holder: i64, ghost others: Objects)
      requires j < |indexes| && Halfway(id, o, j, others) && holder in others
      modifies `primary, `entries
      ensures Halfway(id, o, j, others - {holder})
    {
      ghost var before := primary;
      var _ := Delete(holder);
      assert before[holder] == others[holder] && others - {holder} == before - {holder} - {id};
      forall i | 0 <= i < |indexes|
        ensures entries[i] == EntriesOf(indexes[i], if i < j then (others - {holder})[id := o] else others - {holder})
      {
        HolderGone(indexes[i], id, o, holder, others);
      }
    }

    method DeleteOldEntries(id: i64, ghost o: Object)
      requires Exact()
      modifies `entries
      ensures Halfway(id, o, 0, primary - {id})
    {
      if indexes != [] && id in primary {
        DeleteEntries(id, primary[id]);
        forall i | 0 <= i < |indexes| {
          EntriesWithout(indexes[i], primary, id);
        }
      } else {
        assert id !in primary ==> primary - {id} == primary;
      }
    }

    method CreateEntries(id: i64, o: Object, ghost others: Objects) returns (ghost rest: Objects)
      requires Halfway(id, o, 0, others)
      modifies `primary, `entries
      ensures Halfway(id, o, |indexes|, rest) && rest == EvictAll(indexes, others, o, |indexes|)
    {
      rest := others;
      EvictAllStart(indexes, others, o);
      for j := 0 to |indexes|
        invariant Halfway(id, o, j, rest) && rest == EvictAll(indexes, others, o, j)
      {
        CreateForObject(j, id, o, rest);
        EvictAllNext(indexes, others, o, j);
        rest := Evict(indexes[j], rest, o);
      }
    }

    method Put(id: i64, o: Object)
      requires Exact()
      modifies this
      ensures Exact() && Abstract() == Apply(indexes, old(Abstract()), PutStep(id, o))
    {
      DeleteOldEntries(id, o);
      ghost var rest := CreateEntries(id, o, primary - {id});
      UpdateAutoIncrement(id);
      primary := primary[id := o];
      assert primary == rest[id := o];
    }

    /**
     The stored object is laid out with static size `size` and reads as `vals`; the new one reads as
     the changes say.
     */
    method Update(id: i64, changes: seq<Change>, ghost size: nat, ghost ext: seq<Extent>, ghost vals: seq<Value>)
      returns (r: Result<bool>, ghost ext': seq<Extent>)
      requires Exact() && WellSlotted(schema.properties, schema.staticSize) && schema.staticSize <= size
      requires id in primary ==>
                 && Laid(collections, schema.properties, size, primary[id], ext, vals)
                 && |primary[id]| + Room(changes) < 0x100_0000
      modifies this
      ensures Exact()
      ensures r.Success? <==> id !in old(primary) || AllLegal(schema.properties, changes)
      ensures r.Success? ==> r.value == (id in old(primary))
      ensures r == Success(true) ==>
                var o := UpdatedAll(schema.properties, changes, Opened(old(primary)[id], 0, schema.staticSize));
                && Laid(collections, schema.properties, schema.staticSize, o, ext',
                        NewValues(schema.properties, changes, vals))
                && Abstract() == Apply(indexes, old(Abstract()), UpdateStep(id, o))
      ensures r != Success(true) ==> Abstract() == old(Abstract())
    {
      ext' := ext;
      if id in primary {
        var bytes;
        bytes, ext' := ObjectUpdate.Update(collections, schema, primary[id], changes, size, ext, vals);
        match bytes {
          case Success(o) =>
            Put(id, o);
            r := Success(true);
          case IllegalArgument =>
            r := IllegalArgument;
        }
      } else {
        r := Success(false);
      }
    }

    method Clear()
      modifies `primary, `entries
      ensures Exact() && Abstract() == Apply(indexes, old(Abstract()), ClearStep)
    {
      primary := map[];
      entries := seq(|indexes|, _ => {});
    }
  }

  // ----- properties of all runs

  ghost function Run(indexes: seq<Index<Object>>, s: State, steps: seq<Step>): State {
    if steps == [] then s else Apply(indexes, Run(indexes, s, steps[..|steps| - 1]), steps[|steps| - 1])
  }

  /** A step as it should be. */
  ghost function Ideal(indexes: seq<Index<Object>>, s: State, step: Step): State {
    match step
    case PutStep(id, o) => Apply(indexes, s, step).(objects := Replace(indexes, s.objects, id, o))
    case UpdateStep(id, o) =>
      if id in s.objects then Apply(indexes, s, step).(objects := Replace(indexes, s.objects, id, o)) else s
    case _ => Apply(indexes, s, step)
  }

  ghost function IdealRun(indexes: seq<Index<Object>>, s: State, steps: seq<Step>): State {
    if steps == [] then s else Ideal(indexes, IdealRun(indexes, s, steps[..|steps| - 1]), steps[|steps| - 1])
  }

  /** The objects that occur are from `os`. */
  ghost predicate Uses(os: iset<Object>, steps: seq<Step>) {
    forall i :: 0 <= i < |steps| && (steps[i].PutStep? || steps[i].UpdateStep?) ==> steps[i].o in os
  }

  lemma StepIsIdeal(indexes: seq<Index<Object>>, s: State, step: Step, os: iset<Object>)
    requires UniqueKeys(indexes, s.objects) && StoredFrom(os, s.objects) && HarmlessAmong(indexes, os)
    requires step.PutStep? || step.UpdateStep? ==> step.o in os
    ensures Apply(indexes, s, step) == Ideal(indexes, s, step)
    ensures UniqueKeys(indexes, Apply(indexes, s, step).objects) && StoredFrom(os, Apply(indexes, s, step).objects)
  {
    if step.PutStep? || step.UpdateStep? {
      PutReplaces(indexes, s.objects, step.id, step.o);
      ReplaceKeepsUnique(indexes, s.objects, step.id, step.o);
    }
  }

  /** Every run keeps unique keys distinct and puts remove exactly the conflicting objects. */
  lemma {:induction false} RunsAreIdeal(indexes: seq<Index<Object>>, s: State, steps: seq<Step>, os: iset<Object>)
    requires UniqueKeys(indexes, s.objects) && StoredFrom(os, s.objects) && HarmlessAmong(indexes, os)
        && Uses(os, steps)
    ensures Run(indexes, s, steps) == IdealRun(indexes, s, steps)
    ensures UniqueKeys(indexes, Run(indexes, s, steps).objects) && StoredFrom(os, Run(indexes, s, steps).objects)
  {
    if steps == [] {
    } else {
      var n := |steps| - 1;
      RunsAreIdeal(indexes, s, steps[..n], os);
      StepIsIdeal(indexes, Run(indexes, s, steps[..n]), steps[n], os);
    }
  }

  /** The counter is above every stored id and every id handed out. */
  ghost predicate Ahead(s: State) {
    (forall x :: x in s.objects ==> x < s.counter) && (forall x :: x in s.issued ==> x < s.counter)
  }

  predicate AtLimit(s: State, step: Step) {
    (step.PutStep? && step.id == MAX_ID) || (step.IssueStep? && s.counter == MAX_ID)
  }

  /** The counter stays ahead except at the largest id. */
  lemma StaysAheadExactly(indexes: seq<Index<Object>>, s: State, step: Step)
    requires Ahead(s)
    ensures Ahead(Apply(indexes, s, step)) <==> !AtLimit(s, step)
  {
    if step.PutStep? || step.UpdateStep? {
      assert step.id in After(indexes, s.objects, step.id, step.o);
    }
  }

  ghost predicate BelowLimit(indexes: seq<Index<Object>>, s: State, steps: seq<Step>) {
    forall i :: 0 <= i < |steps| ==> !AtLimit(Run(indexes, s, steps[..i]), steps[i])
  }

  lemma BelowLimitBefore(indexes: seq<Index<Object>>, s: State, steps: seq<Step>)
    requires steps != [] && BelowLimit(indexes, s, steps)
    ensures BelowLimit(indexes, s, steps[..|steps| - 1])
    ensures !AtLimit(Run(indexes, s, steps[..|steps| - 1]), steps[|steps| - 1])
  {
    var n := |steps| - 1;
    assert forall i :: 0 <= i < n ==> steps[..n][..i] == steps[..i];
  }

  /** In every run below the limit an id that is handed out is neither stored nor was handed out before. */
  lemma {:induction false} IdsAreNew(indexes: seq<Index<Object>>, s: State, steps: seq<Step>)
    requires Ahead(s) && BelowLimit(indexes, s, steps)
    ensures var r := Run(indexes, s, steps); Ahead(r) && r.counter !in r.objects && r.counter !in r.issued
  {
    if steps == [] {
    } else {
      BelowLimitBefore(indexes, s, steps);
      IdsAreNew(indexes, s, steps[..|steps| - 1]);
      AheadNext(indexes, Run(indexes, s, steps[..|steps| - 1]), steps[|steps| - 1], Run(indexes, s, steps));
    }
  }

  lemma AheadNext(indexes: seq<Index<Object>>, s: State, step: Step, r: State)
    requires Ahead(s) && !AtLimit(s, step) && r == Apply(indexes, s, step)
    ensures Ahead(r) && r.counter !in r.objects && r.counter !in r.issued
  {
    StaysAheadExactly(indexes, s, step);
  }
}
