/** Index keys of stored objects: what `create_key` reads, in terms of the values of the properties. */
module IndexedObjects {
  import opened Bytes
  import opened LittleEndian
  import opened Deserializer
  import opened Layout
  import opened ObjectTree
  import opened ObjectUpdate
  import opened KeyOrder
  import opened IndexKey
  import opened IndexKeyOrder
  import opened UniqueIndexes

  /** `IndexSchema`: the positions of the indexed properties and two flags. */
  datatype IndexSpec = IndexSpec(columns: seq<nat>, unique: bool, hash: bool)

  predicate Within(columns: seq<nat>, props: seq<Property>) {
    forall k :: 0 <= k < |columns| ==> columns[k] < |props|
  }

  predicate AllWithin(specs: seq<IndexSpec>, props: seq<Property>) {
    forall i :: 0 <= i < |specs| ==> Within(specs[i].columns, props)
  }

  /** One indexed property; a reader that panics does not get this far. */
  function ReadComponent(cols: seq<Collection>, p: Property, b: seq<byte>): Component {
    match IsarDeserializer.FromBytes(b)
    case Ok(d) =>
      (match ReadProperty(cols, p, d)
       case Ok(v) => ComponentOf(p.dataType, v)
       case Panic => StringKey(None))
    case Panic => StringKey(None)
  }

  function ReadComponents(cols: seq<Collection>, props: seq<Property>, columns: seq<nat>, b: seq<byte>): seq<Component>
    requires Within(columns, props)
  {
    seq(|columns|, k requires 0 <= k < |columns| => ReadComponent(cols, props[columns[k]], b))
  }

  function Components(props: seq<Property>, columns: seq<nat>, vals: seq<Value>): seq<Component>
    requires Within(columns, props) && |vals| == |props|
  {
    seq(|columns|, k requires 0 <= k < |columns| => ComponentOf(props[columns[k]].dataType, vals[columns[k]]))
  }

  /** Components of one index always have one shape. */
  lemma ShapesAgree(props: seq<Property>, columns: seq<nat>, vals: seq<Value>, vals': seq<Value>)
    requires Within(columns, props) && |vals| == |vals'| == |props|
    ensures SameShape(Components(props, columns, vals), Components(props, columns, vals'))
  {
    forall k | 0 <= k < |columns|
      ensures SameKind(Components(props, columns, vals)[k], Components(props, columns, vals')[k])
    {
      SameTypeSameKind(props[columns[k]].dataType, vals[columns[k]], vals'[columns[k]]);
    }
  }

  lemma SameTypeSameKind(t: DataType, v: Value, w: Value)
    ensures SameKind(ComponentOf(t, v), ComponentOf(t, w))
  {
  }

  /** The index over the properties at `columns`. */
  function IndexOn(cols: seq<Collection>, props: seq<Property>, spec: IndexSpec, xxh3: seq<byte> -> u64): Index<Object>
    requires Within(spec.columns, props)
  {
    Index(spec.unique, spec.hash, xxh3, b => ReadComponents(cols, props, spec.columns, b))
  }

  /** The same index over records of values. */
  function ValueIndexOn(props: seq<Property>, spec: IndexSpec, xxh3: seq<byte> -> u64): Index<seq<Value>>
    requires Within(spec.columns, props)
  {
    Index(spec.unique, spec.hash, xxh3, vals => if |vals| == |props| then Components(props, spec.columns, vals) else [])
  }

  function Indexes(cols: seq<Collection>, props: seq<Property>, specs: seq<IndexSpec>, xxh3: seq<byte> -> u64)
    : seq<Index<Object>>
    requires AllWithin(specs, props)
  {
    seq(|specs|, i requires 0 <= i < |specs| => IndexOn(cols, props, specs[i], xxh3))
  }

  function ValueIndexes(props: seq<Property>, specs: seq<IndexSpec>, xxh3: seq<byte> -> u64): seq<Index<seq<Value>>>
    requires AllWithin(specs, props)
  {
    seq(|specs|, i requires 0 <= i < |specs| => ValueIndexOn(props, specs[i], xxh3))
  }

  /** The reader returns `vals` for the object. */
  ghost predicate ReadsValues(cols: seq<Collection>, props: seq<Property>, b: Object, vals: seq<Value>) {
    var d := IsarDeserializer.FromBytes(b);
    && d.Ok? && |vals| == |props|
    && forall i :: 0 <= i < |props| ==> ReadProperty(cols, props[i], d.value) == Ok(vals[i])
  }

  lemma LaidIsRead(cols: seq<Collection>, props: seq<Property>, size: nat, b: Object, ext: seq<Extent>,
                   vals: seq<Value>)
    requires Laid(cols, props, size, b, ext, vals)
    ensures ReadsValues(cols, props, b, vals)
  {
    LaidReadsAll(cols, props, size, b, ext, vals);
    forall i | 0 <= i < |props| ensures ReadProperty(cols, props[i], IsarDeserializer(b[3..], size)) == Ok(vals[i]) {
      LaidReads(cols, props, size, b, ext, vals, i);
    }
  }

  /** The key of an object depends on the values of the indexed properties alone. */
  lemma KeysFollowValues(cols: seq<Collection>, props: seq<Property>, columns: seq<nat>, b: Object, vals: seq<Value>)
    requires ReadsValues(cols, props, b, vals) && Within(columns, props)
    ensures ReadComponents(cols, props, columns, b) == Components(props, columns, vals)
  {
    forall k | 0 <= k < |columns|
      ensures ReadComponent(cols, props[columns[k]], b) == ComponentOf(props[columns[k]].dataType, vals[columns[k]])
    {
    }
  }

  /** An object has the index entries of its values. */
  lemma EntriesFollowValues(cols: seq<Collection>, props: seq<Property>, specs: seq<IndexSpec>, xxh3: seq<byte> -> u64,
                            b: Object, vals: seq<Value>)
    requires AllWithin(specs, props) && ReadsValues(cols, props, b, vals)
    ensures Alike(Indexes(cols, props, specs, xxh3), ValueIndexes(props, specs, xxh3), b, vals)
  {
    forall i | 0 <= i < |specs|
      ensures AlikeAt(IndexOn(cols, props, specs[i], xxh3), ValueIndexOn(props, specs[i], xxh3), b, vals)
    {
      KeysFollowValues(cols, props, specs[i].columns, b, vals);
    }
  }

  /** An update leaves the entry of an index in place unless it lists one of its properties. */
  lemma UnlistedEntryStays(cols: seq<Collection>, props: seq<Property>, spec: IndexSpec, us: seq<Change>,
                           xxh3: seq<byte> -> u64, b: Object, vals: seq<Value>, b': Object)
    requires Within(spec.columns, props) && ReadsValues(cols, props, b, vals) && AllLegal(props, us)
    requires ReadsValues(cols, props, b', NewValues(props, us, vals))
    requires forall k, u :: 0 <= k < |spec.columns| && 0 <= u < |us| ==> us[u].0 != spec.columns[k] + 1
    ensures var ix := IndexOn(cols, props, spec, xxh3);
            ix.Key(b') == ix.Key(b) && (ix.Restricts(b') <==> ix.Restricts(b))
  {
    var columns := spec.columns;
    KeysFollowValues(cols, props, columns, b, vals);
    KeysFollowValues(cols, props, columns, b', NewValues(props, us, vals));
    forall k | 0 <= k < |columns| ensures NewValues(props, us, vals)[columns[k]] == vals[columns[k]] {
      Unlisted(props, us, vals, columns[k]);
    }
    assert Components(props, columns, NewValues(props, us, vals)) == Components(props, columns, vals);
  }

  // ----- conflicts in terms of values

  /** What `verify` demands of an index that is not hashed. */
  predicate StringColumnLast(props: seq<Property>, columns: seq<nat>)
    requires Within(columns, props)
  {
    forall k :: 0 <= k < |columns| - 1 ==> !props[columns[k]].dataType.IsDynamic()
  }

  /** The keys are equal although the bytes they are made from are not. */
  ghost predicate Collides<O>(ix: Index<O>, a: O, b: O) {
    AllBytes(ix.read(a)) != AllBytes(ix.read(b)) && ix.Key(a) == ix.Key(b)
  }

  /** Only hashed and overlong keys can collide. */
  lemma ShortKeysDiffer<O>(ix: Index<O>, a: O, b: O)
    requires !ix.hash && |AllBytes(ix.read(a))| <= MAX_INDEX_SIZE && |AllBytes(ix.read(b))| <= MAX_INDEX_SIZE
    ensures !Collides(ix, a, b)
  {
  }

  /** Null-free indexed values that are equal, or the empty string and U+0001 after equal values. */
  ghost predicate SameEntry(props: seq<Property>, columns: seq<nat>, v: seq<Value>, w: seq<Value>)
    requires Within(columns, props) && |v| == |w| == |props|
  {
    var xs, ys := Components(props, columns, v), Components(props, columns, w);
    ShapesAgree(props, columns, v, w);
    !HasNull(xs) && !HasNull(ys) && Indistinct(xs, ys)
  }

  /** `xs` ends in null and `ys` in U+0000, after equal values without nulls. */
  ghost predicate EndsInNull(xs: seq<Component>, ys: seq<Component>)
    requires SameShape(ys, xs)
  {
    var n := |xs| - 1;
    && n >= 0 && xs[n] == StringKey(None) && ys[n] == StringKey(Some([0]))
    && !HasNull(ys) && CompareTuples(ys[..n], xs[..n]) == Equal
  }

  ghost predicate NullAgainstNul(props: seq<Property>, columns: seq<nat>, v: seq<Value>, w: seq<Value>)
    requires Within(columns, props) && |v| == |w| == |props|
  {
    ShapesAgree(props, columns, w, v);
    EndsInNull(Components(props, columns, v), Components(props, columns, w))
  }

  /** Two records are in conflict in a unique index exactly when they have the same entry. */
  lemma ConflictExactly(props: seq<Property>, spec: IndexSpec, xxh3: seq<byte> -> u64, v: seq<Value>, w: seq<Value>)
    requires Within(spec.columns, props) && |v| == |w| == |props| && StringColumnLast(props, spec.columns)
    requires !Collides(ValueIndexOn(props, spec, xxh3), v, w)
    ensures ConflictAt(ValueIndexOn(props, spec, xxh3), v, w)
       <==> spec.unique && SameEntry(props, spec.columns, v, w)
  {
    ShapesAgree(props, spec.columns, v, w);
    KeyInjective(Components(props, spec.columns, v), Components(props, spec.columns, w));
  }

  lemma LastNull(xs: seq<Component>)
    ensures xs != [] && xs[|xs| - 1] == StringKey(None) ==> HasNull(xs)
  {
    if xs != [] { HasNullLast(xs); }
  }

  lemma NullAgainst<O>(ix: Index<O>, a: O, b: O)
    requires SameShape(ix.read(b), ix.read(a)) && StringLast(ix.read(b)) && !Collides(ix, a, b)
    ensures CoincideAt(ix, a, b) <==> ix.unique && EndsInNull(ix.read(a), ix.read(b))
  {
    LastNull(ix.read(a));
    if HasNull(ix.read(a)) && !HasNull(ix.read(b)) {
      NullKeysCoincide(ix.read(b), ix.read(a));
    }
  }

  /** A record with a null and one without coincide in it exactly for null against U+0000. */
  lemma CoincideExactly(props: seq<Property>, spec: IndexSpec, xxh3: seq<byte> -> u64, v: seq<Value>, w: seq<Value>)
    requires Within(spec.columns, props) && |v| == |w| == |props| && StringColumnLast(props, spec.columns)
    requires !Collides(ValueIndexOn(props, spec, xxh3), v, w)
    ensures CoincideAt(ValueIndexOn(props, spec, xxh3), v, w)
       <==> spec.unique && NullAgainstNul(props, spec.columns, v, w)
  {
    ShapesAgree(props, spec.columns, w, v);
    NullAgainst(ValueIndexOn(props, spec, xxh3), v, w);
  }

  /** No unique index takes the null of `v` for a U+0000 of `w`, or one of them has the same entry for both. */
  ghost predicate HarmlessValues(props: seq<Property>, specs: seq<IndexSpec>, v: seq<Value>, w: seq<Value>)
    requires AllWithin(specs, props) && |v| == |w| == |props|
  {
    (exists i :: 0 <= i < |specs| && specs[i].unique && NullAgainstNul(props, specs[i].columns, v, w)) ==>
    (exists i :: 0 <= i < |specs| && specs[i].unique && SameEntry(props, specs[i].columns, v, w))
  }

  /** Every unique index has its string last and does not make different keys equal. */
  ghost predicate Faithful(props: seq<Property>, specs: seq<IndexSpec>, xxh3: seq<byte> -> u64, vs: iset<seq<Value>>)
    requires AllWithin(specs, props)
  {
    && (forall v :: v in vs ==> |v| == |props|)
    && forall i :: 0 <= i < |specs| && specs[i].unique ==>
         && StringColumnLast(props, specs[i].columns)
         && forall v, w :: v in vs && w in vs ==> !Collides(ValueIndexOn(props, specs[i], xxh3), v, w)
  }

  /** Unhashed unique indexes over short keys are faithful to all records. */
  lemma ShortKeysFaithful(props: seq<Property>, specs: seq<IndexSpec>, xxh3: seq<byte> -> u64, vs: iset<seq<Value>>)
    requires AllWithin(specs, props) && forall v :: v in vs ==> |v| == |props|
    requires forall i :: 0 <= i < |specs| && specs[i].unique ==>
               && !specs[i].hash && StringColumnLast(props, specs[i].columns)
               && forall v :: v in vs ==> |AllBytes(Components(props, specs[i].columns, v))| <= MAX_INDEX_SIZE
    ensures Faithful(props, specs, xxh3, vs)
  {
    forall i, v, w | 0 <= i < |specs| && specs[i].unique && v in vs && w in vs
      ensures !Collides(ValueIndexOn(props, specs[i], xxh3), v, w)
    {
      ShortKeysDiffer(ValueIndexOn(props, specs[i], xxh3), v, w);
    }
  }

  lemma HarmlessPair(props: seq<Property>, specs: seq<IndexSpec>, xxh3: seq<byte> -> u64, vs: iset<seq<Value>>,
                     v: seq<Value>, w: seq<Value>)
    requires AllWithin(specs, props) && Faithful(props, specs, xxh3, vs) && v in vs && w in vs
    ensures Harmless(ValueIndexes(props, specs, xxh3), v, w) <==> HarmlessValues(props, specs, v, w)
  {
    var ixs := ValueIndexes(props, specs, xxh3);
    forall i | 0 <= i < |specs|
      ensures CoincideAt(ixs[i], v, w) <==> specs[i].unique && NullAgainstNul(props, specs[i].columns, v, w)
      ensures ConflictAt(ixs[i], v, w) <==> specs[i].unique && SameEntry(props, specs[i].columns, v, w)
    {
      if specs[i].unique {
        ConflictExactly(props, specs[i], xxh3, v, w);
        CoincideExactly(props, specs[i], xxh3, v, w);
      }
    }
  }

  lemma HarmlessObjects(cols: seq<Collection>, props: seq<Property>, specs: seq<IndexSpec>, xxh3: seq<byte> -> u64,
                        vs: iset<seq<Value>>, a: Object, v: seq<Value>, b: Object, w: seq<Value>)
    requires AllWithin(specs, props) && Faithful(props, specs, xxh3, vs) && v in vs && w in vs
    requires ReadsValues(cols, props, a, v) && ReadsValues(cols, props, b, w)
    ensures Harmless(Indexes(cols, props, specs, xxh3), a, b) <==> HarmlessValues(props, specs, v, w)
  {
    EntriesFollowValues(cols, props, specs, xxh3, a, v);
    EntriesFollowValues(cols, props, specs, xxh3, b, w);
    ConflictAlike(Indexes(cols, props, specs, xxh3), ValueIndexes(props, specs, xxh3), a, b, v, w);
    HarmlessPair(props, specs, xxh3, vs, v, w);
  }

  /** Some object holds the values; some values are those of the object. */
  ghost predicate Held(cols: seq<Collection>, props: seq<Property>, os: iset<Object>, v: seq<Value>) {
    exists o :: o in os && ReadsValues(cols, props, o, v)
  }

  ghost predicate Listing(cols: seq<Collection>, props: seq<Property>, o: Object, vs: iset<seq<Value>>) {
    exists v :: v in vs && ReadsValues(cols, props, o, v)
  }

  lemma HarmlessIfObjects(cols: seq<Collection>, props: seq<Property>, specs: seq<IndexSpec>, xxh3: seq<byte> -> u64,
                          os: iset<Object>, vs: iset<seq<Value>>, v: seq<Value>, w: seq<Value>)
    requires AllWithin(specs, props) && Faithful(props, specs, xxh3, vs) && v in vs && w in vs
    requires Held(cols, props, os, v) && Held(cols, props, os, w)
    requires HarmlessAmong(Indexes(cols, props, specs, xxh3), os)
    ensures HarmlessValues(props, specs, v, w)
  {
    var a :| a in os && ReadsValues(cols, props, a, v);
    var b :| b in os && ReadsValues(cols, props, b, w);
    HarmlessObjects(cols, props, specs, xxh3, vs, a, v, b, w);
  }

  ghost predicate AllHarmlessValues(props: seq<Property>, specs: seq<IndexSpec>, vs: iset<seq<Value>>)
    requires AllWithin(specs, props) && forall v :: v in vs ==> |v| == |props|
  {
    forall v, w :: v in vs && w in vs ==> HarmlessValues(props, specs, v, w)
  }

  lemma HarmlessIfValues(cols: seq<Collection>, props: seq<Property>, specs: seq<IndexSpec>, xxh3: seq<byte> -> u64,
                         vs: iset<seq<Value>>, a: Object, b: Object)
    requires AllWithin(specs, props) && Faithful(props, specs, xxh3, vs)
    requires Listing(cols, props, a, vs) && Listing(cols, props, b, vs) && AllHarmlessValues(props, specs, vs)
    ensures Harmless(Indexes(cols, props, specs, xxh3), a, b)
  {
    var v :| v in vs && ReadsValues(cols, props, a, v);
    var w :| w in vs && ReadsValues(cols, props, b, w);
    HarmlessObjects(cols, props, specs, xxh3, vs, a, v, b, w);
  }

  /** The condition of `PutReplaces` on stored objects, as a condition on the values they hold. */
  lemma HarmlessExactly(cols: seq<Collection>, props: seq<Property>, specs: seq<IndexSpec>, xxh3: seq<byte> -> u64,
                        os: iset<Object>, vs: iset<seq<Value>>)
    requires AllWithin(specs, props) && Faithful(props, specs, xxh3, vs)
    requires forall o :: o in os ==> Listing(cols, props, o, vs)
    requires forall v :: v in vs ==> Held(cols, props, os, v)
    ensures HarmlessAmong(Indexes(cols, props, specs, xxh3), os) <==> AllHarmlessValues(props, specs, vs)
  {
    if HarmlessAmong(Indexes(cols, props, specs, xxh3), os) {
      forall v, w | v in vs && w in vs ensures HarmlessValues(props, specs, v, w) {
        HarmlessIfObjects(cols, props, specs, xxh3, os, vs, v, w);
      }
    }
    if AllHarmlessValues(props, specs, vs) {
      forall a, b | a in os && b in os ensures Harmless(Indexes(cols, props, specs, xxh3), a, b) {
        HarmlessIfValues(cols, props, specs, xxh3, vs, a, b);
      }
    }
  }

  // ----- two pairs of objects

  lemma OneWrite(cols: seq<Collection>, c: Collection, w: Write)
    requires WellFormed(cols) && WellSlotted(c.properties, c.staticSize)
    ensures Encode(cols, c, [w]) == Call(cols, c.properties, w, Blank(c.staticSize))
    ensures ExpectObject(cols, c.properties, [w]) == ExpectCall(cols, c.properties, w, Defaults(c.properties))
  {
    var none: seq<Write> := [];
    assert [w][1..] == none;
    var b := Call(cols, c.properties, w, Blank(c.staticSize));
    assert StoreAll(cols, c.properties, [w], Blank(c.staticSize)) == StoreAll(cols, c.properties, none, b);
    var vals := ExpectCall(cols, c.properties, w, Defaults(c.properties));
    assert ExpectAll(cols, c.properties, [w], Defaults(c.properties)) == ExpectAll(cols, c.properties, none, vals);
  }

  const ONE_STRING: Collection := Collection([Property(String, 0, None)], 3)

  function StringObject(text: Option<seq<byte>>): Object {
    OneStringFits();
    Encode([], ONE_STRING, [Write(0, if text.None? then WNull else WString(text.value))])
  }

  lemma OneStringFits()
    ensures WellFormed([]) && WellSlotted(ONE_STRING.properties, ONE_STRING.staticSize)
  {
  }

  lemma StringObjectShort(text: Option<seq<byte>>)
    requires text.Some? ==> |text.value| <= 1
    ensures |StringObject(text)| <= 10
    ensures ExpectObject([], ONE_STRING.properties, [Write(0, if text.None? then WNull else WString(text.value))])
         == [if text.None? then Null else Blob(text.value)]
  {
    match text
    case None => OneWrite([], ONE_STRING, Write(0, WNull));
    case Some(bytes) => OneWrite([], ONE_STRING, Write(0, WString(bytes)));
  }

  /** The stored object with one string property, and what an index reads from it. */
  lemma StringObjectRead(text: Option<seq<byte>>)
    requires text.Some? ==> |text.value| <= 1
    ensures ReadComponents([], ONE_STRING.properties, [0], StringObject(text)) == [StringKey(text)]
  {
    var w := Write(0, if text.None? then WNull else WString(text.value));
    OneStringFits();
    StringObjectShort(text);
    var ext := EncodeLaid([], ONE_STRING, [w]);
    var vals := ExpectObject([], ONE_STRING.properties, [w]);
    LaidIsRead([], ONE_STRING.properties, 3, StringObject(text), ext, vals);
    KeysFollowValues([], ONE_STRING.properties, [0], StringObject(text), vals);
  }

  function StringIndex(xxh3: seq<byte> -> u64): Index<Object> {
    IndexOn([], ONE_STRING.properties, IndexSpec([0], true, false), xxh3)
  }

  /** With one unique string property, putting the string U+0000 deletes the object that holds null. */
  lemma NulExample(xxh3: seq<byte> -> u64)
    ensures var ix, a, b := StringIndex(xxh3), StringObject(None), StringObject(Some([0]));
            && CoincideAt(ix, a, b) && !Conflict([ix], a, b)
            && After([ix], map[1 := a], 2, b) == map[2 := b]
            && Replace([ix], map[1 := a], 2, b) == map[1 := a, 2 := b]
  {
    StringObjectRead(None);
    StringObjectRead(Some([0]));
    NulPut(StringIndex(xxh3), StringObject(None), StringObject(Some([0])));
  }

  lemma NulPut<O>(ix: Index<O>, a: O, b: O)
    requires ix.unique && !ix.hash && ix.read(a) == [StringKey(None)] && ix.read(b) == [StringKey(Some([0]))]
    ensures CoincideAt(ix, a, b) && !Conflict([ix], a, b)
    ensures After([ix], map[1 := a], 2, b) == map[2 := b]
    ensures Replace([ix], map[1 := a], 2, b) == map[1 := a, 2 := b]
  {
    LastNull(ix.read(a));
    NullKeysCoincide(ix.read(b), ix.read(a));
    assert CoincideAt(ix, a, b);
    CoincidingGoes([ix], map[1 := a], 1, b, 0, 1);
    assert map[1 := a] - {2} == map[1 := a];
  }

  /** And the empty string is in conflict with U+0001 there. */
  lemma EmptyStringExample(xxh3: seq<byte> -> u64)
    ensures ConflictAt(StringIndex(xxh3), StringObject(Some([])), StringObject(Some([1])))
  {
    StringObjectRead(Some([]));
    StringObjectRead(Some([1]));
    EmptyConflict(StringIndex(xxh3), StringObject(Some([])), StringObject(Some([1])));
  }

  lemma EmptyConflict<O>(ix: Index<O>, a: O, b: O)
    requires ix.unique && !ix.hash && ix.read(a) == [StringKey(Some([]))] && ix.read(b) == [StringKey(Some([1]))]
    ensures ConflictAt(ix, a, b)
  {
    KeyInjective(ix.read(a), ix.read(b));
  }
}
