/**
 Putting an object into a collection with unique indexes deletes other objects on the way: index by
 index, the first object found under the new key. This module says which ones that should be, and
 when it is those.
 */
module UniqueIndexes {
  import opened Bytes
  import opened LittleEndian
  import opened KeyOrder
  import opened IndexKey
  import opened IndexKeyOrder

  type Object = seq<byte>
  type IndexEntry = (seq<byte>, i64)
  type Objects = map<i64, Object>

  /** `NativeIndex`; `read` gives the values of the indexed properties of an object. */
  datatype Index<!O> = Index(unique: bool, hash: bool, xxh3: seq<byte> -> u64, read: O -> seq<Component>) {
    function Key(o: O): seq<byte> {
      if hash then ToBe(xxh3(AllBytes(read(o))), 8) else Finished(AllBytes(read(o)), xxh3)
    }

    ghost predicate Restricts(o: O) { unique && !HasNull(read(o)) }
  }

  /** The key of a hashed index is the eight bytes of the hash: equal exactly for equal hashes. */
  lemma HashedKeys<O>(ix: Index<O>, a: O, b: O)
    requires ix.hash
    ensures |ix.Key(a)| == 8
    ensures ix.Key(a) == ix.Key(b) <==> ix.xxh3(AllBytes(ix.read(a))) == ix.xxh3(AllBytes(ix.read(b)))
  {
    HashBytes(ix.xxh3(AllBytes(ix.read(a))), ix.xxh3(AllBytes(ix.read(b))));
  }

  // ----- the first duplicate of a key

  /** Duplicates are sorted by their bytes, and those are the little-endian ids. */
  predicate NotBehind(x: i64, y: i64) { CompareBytes(ToIdBytes(x), ToIdBytes(y)) != Greater }

  ghost predicate IsFirst(ids: set<i64>, x: i64) {
    x in ids && forall y {:trigger NotBehind(x, y)} :: y in ids ==> NotBehind(x, y)
  }

  lemma {:induction false} FirstExists(ids: set<i64>) returns (x: i64)
    requires ids != {}
    ensures IsFirst(ids, x)
    decreases |ids|
  {
    var a :| a in ids;
    CompareEqual(ToIdBytes(a), ToIdBytes(a));
    if ids == {a} {
      x := a;
    } else {
      assert ids - {a} != {} by {
        var b :| b in ids && b != a;
        assert b in ids - {a};
      }
      var b := FirstExists(ids - {a});
      CompareFlip(ToIdBytes(a), ToIdBytes(b));
      if NotBehind(b, a) {
        x := b;
      } else {
        x := a;
        forall y | y in ids - {a} ensures NotBehind(a, y) {
          assert NotBehind(b, y);
          CompareTransitive(ToIdBytes(a), ToIdBytes(b), ToIdBytes(y));
        }
      }
    }
  }

  lemma HasFirst(ids: set<i64>)
    requires ids != {}
    ensures exists x :: IsFirst(ids, x)
  {
    var x := FirstExists(ids);
  }

  lemma FirstUnique(ids: set<i64>, x: i64, y: i64)
    requires IsFirst(ids, x) && IsFirst(ids, y)
    ensures x == y
  {
    assert NotBehind(x, y) && NotBehind(y, x);
    CompareFlip(ToIdBytes(x), ToIdBytes(y));
    CompareEqual(ToIdBytes(x), ToIdBytes(y));
    IdKeys(x, x);
    IdKeys(y, y);
  }

  ghost function First(ids: set<i64>): (x: i64)
    requires ids != {}
    ensures IsFirst(ids, x)
  {
    HasFirst(ids);
    var x :| IsFirst(ids, x);
    x
  }

  function IdsOf(entries: set<IndexEntry>, key: seq<byte>): set<i64> {
    set e | e in entries && e.0 == key :: e.1
  }

  // ----- what the indexes should hold

  function EntriesOf<O>(ix: Index<O>, m: map<i64, O>): set<IndexEntry> {
    set x | x in m :: (ix.Key(m[x]), x)
  }

  function Holders<O>(ix: Index<O>, m: map<i64, O>, key: seq<byte>): set<i64> {
    set x | x in m && ix.Key(m[x]) == key
  }

  lemma HoldersFound<O>(ix: Index<O>, m: map<i64, O>, key: seq<byte>)
    ensures IdsOf(EntriesOf(ix, m), key) == Holders(ix, m, key)
  {
    forall x | x in Holders(ix, m, key) ensures x in IdsOf(EntriesOf(ix, m), key) {
      assert (key, x) in EntriesOf(ix, m);
    }
  }

  lemma EntriesWithout<O>(ix: Index<O>, m: map<i64, O>, x: i64)
    requires x in m
    ensures EntriesOf(ix, m - {x}) == EntriesOf(ix, m) - {(ix.Key(m[x]), x)}
  {
    var m' := m - {x};
    forall e | e in EntriesOf(ix, m) && e.1 != x ensures e in EntriesOf(ix, m') {
      assert e.1 in m' && e == (ix.Key(m'[e.1]), e.1);
    }
  }

  lemma EntriesWith<O>(ix: Index<O>, m: map<i64, O>, x: i64, o: O)
    requires x !in m
    ensures EntriesOf(ix, m[x := o]) == EntriesOf(ix, m) + {(ix.Key(o), x)}
  {
    var m' := m[x := o];
    forall e | e in EntriesOf(ix, m) + {(ix.Key(o), x)} ensures e in EntriesOf(ix, m') {
      assert e.1 in m' && e == (ix.Key(m'[e.1]), e.1);
    }
  }

  // ----- what a put does to the objects

  /** The object whose entry the new one runs into goes. */
  ghost function Evict<O>(ix: Index<O>, m: map<i64, O>, o: O): map<i64, O> {
    var ids := Holders(ix, m, ix.Key(o));
    if ix.Restricts(o) && ids != {} then m - {First(ids)} else m
  }

  /** The ids that hold the key of a new object if it has to be unique. */
  ghost function Held<O>(ix: Index<O>, m: map<i64, O>, o: O): set<i64> {
    if ix.Restricts(o) then Holders(ix, m, ix.Key(o)) else {}
  }

  ghost function AllHeld<O>(indexes: seq<Index<O>>, m: map<i64, O>, o: O): (held: seq<set<i64>>)
    ensures IsHeld(indexes, m, o, held)
  {
    seq(|indexes|, i requires 0 <= i < |indexes| => Held(indexes[i], m, o))
  }

  ghost predicate IsHeld<O>(indexes: seq<Index<O>>, m: map<i64, O>, o: O, held: seq<set<i64>>) {
    |held| == |indexes| && forall i {:trigger held[i]} :: 0 <= i < |held| ==> held[i] == Held(indexes[i], m, o)
  }

  ghost function Strike(held: set<i64>, ids: set<i64>): set<i64> {
    if held * ids == {} then ids else ids - {First(held * ids)}
  }

  ghost function StrikeAll(held: seq<set<i64>>, ids: set<i64>, n: nat): set<i64>
    requires n <= |held|
  {
    if n == 0 then ids else Strike(held[n - 1], StrikeAll(held, ids, n - 1))
  }

  lemma {:induction false} StrikeAllFalls(held: seq<set<i64>>, ids: set<i64>, k: nat, n: nat)
    requires k <= n <= |held|
    ensures StrikeAll(held, ids, n) <= StrikeAll(held, ids, k)
  {
    if k == n {
    } else {
      StrikeAllFalls(held, ids, k, n - 1);
    }
  }

  function Kept<O>(m: map<i64, O>, ids: set<i64>): (r: map<i64, O>)
    ensures r.Keys == m.Keys * ids && forall x :: x in r ==> r[x] == m[x]
  {
    map x | x in m && x in ids :: m[x]
  }

  /** The objects left after the first `n` indexes. */
  ghost function EvictAll<O>(indexes: seq<Index<O>>, m: map<i64, O>, o: O, n: nat): (r: map<i64, O>)
    requires n <= |indexes|
    ensures forall x :: x in r ==> x in m && r[x] == m[x]
  {
    Kept(m, StrikeAll(AllHeld(indexes, m, o), m.Keys, n))
  }

  lemma EvictAllStart<O>(indexes: seq<Index<O>>, m: map<i64, O>, o: O)
    ensures EvictAll(indexes, m, o, 0) == m
  {
  }

  lemma HoldersKept<O>(ix: Index<O>, m: map<i64, O>, ids: set<i64>, key: seq<byte>)
    ensures Holders(ix, Kept(m, ids), key) == Holders(ix, m, key) * ids
  {
  }

  lemma WithoutKept<O>(m: map<i64, O>, ids: set<i64>, x: i64)
    ensures Kept(m, ids) - {x} == Kept(m, ids - {x})
  {
  }

  lemma EvictKept<O>(ix: Index<O>, m: map<i64, O>, o: O, ids: set<i64>)
    ensures Evict(ix, Kept(m, ids), o) == Kept(m, Strike(Held(ix, m, o), ids))
  {
    HoldersKept(ix, m, ids, ix.Key(o));
    var found := Held(ix, m, o) * ids;
    if found != {} { WithoutKept(m, ids, First(found)); }
  }

  /** That is index by index, each looking at the objects the ones before have left. */
  lemma EvictAllNext<O>(indexes: seq<Index<O>>, m: map<i64, O>, o: O, n: nat)
    requires n < |indexes|
    ensures EvictAll(indexes, m, o, n + 1) == Evict(indexes[n], EvictAll(indexes, m, o, n), o)
  {
    var held := AllHeld(indexes, m, o);
    EvictKept(indexes[n], m, o, StrikeAll(held, m.Keys, n));
    assert StrikeAll(held, m.Keys, n + 1) == Strike(held[n], StrikeAll(held, m.Keys, n));
  }

  lemma EvictAllStrikes<O>(indexes: seq<Index<O>>, m: map<i64, O>, o: O, n: nat)
    requires n <= |indexes|
    ensures EvictAll(indexes, m, o, n).Keys == StrikeAll(AllHeld(indexes, m, o), m.Keys, n)
  {
    StrikeAllFalls(AllHeld(indexes, m, o), m.Keys, 0, n);
  }

  lemma HeldGoes(held: seq<set<i64>>, x: i64, i: nat, n: nat)
    requires i < n <= |held| && x in held[i]
    ensures x !in StrikeAll(held, {x}, n)
  {
    StrikeAllFalls(held, {x}, 0, i);
    StrikeAllFalls(held, {x}, i + 1, n);
    var before := StrikeAll(held, {x}, i);
    if x in before {
      assert held[i] * before == {x};
    }
  }

  /** `held` lies in `conflicts`, and is at most the one element of `direct` if there is any. */
  ghost predicate Separate(held: set<i64>, direct: set<i64>, conflicts: set<i64>) {
    && direct <= held <= conflicts
    && forall v, x {:trigger v in held, x in direct} :: v in held && x in direct ==> v == x
  }

  lemma StrikeSeparate(held: set<i64>, direct: set<i64>, conflicts: set<i64>, ids: set<i64>)
    requires Separate(held, direct, conflicts)
    ensures ids - conflicts <= Strike(held, ids) && direct !! Strike(held, ids)
  {
    forall x | x in direct ensures x !in Strike(held, ids) {
      if x in ids { assert x in held * ids; }
    }
  }

  lemma {:induction false} StrikeAllSeparate(held: seq<set<i64>>, direct: seq<set<i64>>, conflicts: set<i64>,
                                             ids: set<i64>, n: nat)
    requires n <= |held| == |direct|
    requires forall i {:trigger Separate(held[i], direct[i], conflicts)} :: 0 <= i < |held| ==>
               Separate(held[i], direct[i], conflicts)
    ensures ids - conflicts <= StrikeAll(held, ids, n)
    ensures forall i {:trigger direct[i]} :: 0 <= i < n ==> direct[i] !! StrikeAll(held, ids, n)
  {
    if n == 0 {
    } else {
      StrikeAllSeparate(held, direct, conflicts, ids, n - 1);
      assert Separate(held[n - 1], direct[n - 1], conflicts);
      StrikeSeparate(held[n - 1], direct[n - 1], conflicts, StrikeAll(held, ids, n - 1));
    }
  }

  lemma StrikeAllExact(held: seq<set<i64>>, direct: seq<set<i64>>, conflicts: set<i64>, ids: set<i64>)
    requires |held| == |direct|
    requires forall i {:trigger Separate(held[i], direct[i], conflicts)} :: 0 <= i < |held| ==>
               Separate(held[i], direct[i], conflicts)
    requires forall x :: x in conflicts ==> exists i :: 0 <= i < |direct| && x in direct[i]
    ensures StrikeAll(held, ids, |held|) == ids - conflicts
  {
    StrikeAllSeparate(held, direct, conflicts, ids, |held|);
    StrikeAllFalls(held, ids, 0, |held|);
  }

  ghost function After<O>(indexes: seq<Index<O>>, m: map<i64, O>, id: i64, o: O): map<i64, O> {
    EvictAll(indexes, m - {id}, o, |indexes|)[id := o]
  }

  // ----- what a put should do to the objects

  ghost predicate ConflictAt<O>(ix: Index<O>, a: O, b: O) {
    ix.Restricts(a) && ix.Restricts(b) && ix.Key(a) == ix.Key(b)
  }

  /** Both objects have the same key without nulls in a unique index. */
  ghost predicate Conflict<O>(indexes: seq<Index<O>>, a: O, b: O) {
    exists i :: 0 <= i < |indexes| && ConflictAt(indexes[i], a, b)
  }

  /** Remove exactly the objects in conflict with the new one. */
  ghost function Replace<O>(indexes: seq<Index<O>>, m: map<i64, O>, id: i64, o: O): map<i64, O> {
    (map x | x in m && x != id && !Conflict(indexes, m[x], o) :: m[x])[id := o]
  }

  ghost predicate UniqueKeys<O>(indexes: seq<Index<O>>, m: map<i64, O>) {
    forall x, y {:trigger Conflict(indexes, m[x], m[y])} :: x in m && y in m && x != y ==>
      !Conflict(indexes, m[x], m[y])
  }

  ghost predicate CoincideAt<O>(ix: Index<O>, a: O, b: O) {
    ix.unique && !ix.Restricts(a) && ix.Restricts(b) && ix.Key(a) == ix.Key(b)
  }

  /** The key of `a` has a null, that of `b` has none, and their bytes are the same. */
  ghost predicate Coincide<O>(indexes: seq<Index<O>>, a: O, b: O) {
    exists i :: 0 <= i < |indexes| && CoincideAt(indexes[i], a, b)
  }

  ghost predicate Harmless<O>(indexes: seq<Index<O>>, a: O, b: O) {
    Coincide(indexes, a, b) ==> Conflict(indexes, a, b)
  }

  ghost predicate AllHarmless<O>(indexes: seq<Index<O>>, m: map<i64, O>) {
    forall x, y {:trigger Harmless(indexes, m[x], m[y])} :: x in m && y in m ==> Harmless(indexes, m[x], m[y])
  }

  ghost predicate HarmlessTo<O>(indexes: seq<Index<O>>, m: map<i64, O>, o: O) {
    forall x {:trigger Harmless(indexes, m[x], o)} :: x in m ==> Harmless(indexes, m[x], o)
  }

  ghost predicate HarmlessAmong<O(!new)>(indexes: seq<Index<O>>, os: iset<O>) {
    forall a, b :: a in os && b in os ==> Harmless(indexes, a, b)
  }

  ghost predicate StoredFrom<O>(os: iset<O>, m: map<i64, O>) {
    forall x :: x in m ==> m[x] in os
  }

  lemma ConflictSymmetric<O>(indexes: seq<Index<O>>, a: O, b: O)
    ensures Conflict(indexes, a, b) <==> Conflict(indexes, b, a)
  {
    if Conflict(indexes, a, b) {
      var i :| 0 <= i < |indexes| && ConflictAt(indexes[i], a, b);
      assert ConflictAt(indexes[i], b, a);
    }
    if Conflict(indexes, b, a) {
      var i :| 0 <= i < |indexes| && ConflictAt(indexes[i], b, a);
      assert ConflictAt(indexes[i], a, b);
    }
  }

  lemma SameKey<O>(indexes: seq<Index<O>>, i: nat, a: O, b: O)
    requires i < |indexes| && indexes[i].Restricts(b) && indexes[i].Key(a) == indexes[i].Key(b)
    ensures Coincide(indexes, a, b) || Conflict(indexes, a, b)
  {
    assert CoincideAt(indexes[i], a, b) || ConflictAt(indexes[i], a, b);
  }

  /** An object in conflict with `o` holds the key of `o` alone. */
  lemma OnlyHolder<O>(indexes: seq<Index<O>>, m: map<i64, O>, o: O, i: nat, v: i64, x: i64)
    requires i < |indexes| && UniqueKeys(indexes, m)
    requires v in m && x in m && indexes[i].Key(m[v]) == indexes[i].Key(o) && Harmless(indexes, m[v], m[x])
    ensures ConflictAt(indexes[i], m[x], o) ==> v == x
  {
    if ConflictAt(indexes[i], m[x], o) {
      SameKey(indexes, i, m[v], m[x]);
    }
  }

  /** The objects of one index that are in conflict with `o`. */
  ghost function Direct<O>(ix: Index<O>, m: map<i64, O>, o: O): set<i64> {
    set x | x in m && ConflictAt(ix, m[x], o)
  }

  ghost function AllDirect<O>(indexes: seq<Index<O>>, m: map<i64, O>, o: O): (direct: seq<set<i64>>)
    ensures |direct| == |indexes|
    ensures forall i {:trigger direct[i]} :: 0 <= i < |direct| ==> direct[i] == Direct(indexes[i], m, o)
  {
    seq(|indexes|, i requires 0 <= i < |indexes| => Direct(indexes[i], m, o))
  }

  ghost function InConflict<O>(indexes: seq<Index<O>>, m: map<i64, O>, o: O): set<i64> {
    set x | x in m && Conflict(indexes, m[x], o)
  }

  /** The key of `o` is held by objects in conflict with it, and by one alone if it is one of this index. */
  lemma HeldSeparate<O>(indexes: seq<Index<O>>, m: map<i64, O>, o: O, i: nat)
    requires i < |indexes| && UniqueKeys(indexes, m) && AllHarmless(indexes, m) && HarmlessTo(indexes, m, o)
    ensures Separate(Held(indexes[i], m, o), Direct(indexes[i], m, o), InConflict(indexes, m, o))
  {
    forall v | v in Held(indexes[i], m, o) ensures v in InConflict(indexes, m, o) {
      assert Harmless(indexes, m[v], o);
      SameKey(indexes, i, m[v], o);
    }
    forall v, x | v in Held(indexes[i], m, o) && x in Direct(indexes[i], m, o) ensures v == x {
      assert Harmless(indexes, m[v], m[x]);
      OnlyHolder(indexes, m, o, i, v, x);
    }
  }

  /** A put removes exactly the conflicting objects. */
  lemma PutReplaces<O>(indexes: seq<Index<O>>, m: map<i64, O>, id: i64, o: O)
    requires UniqueKeys(indexes, m)
    requires AllHarmless(indexes, m) && HarmlessTo(indexes, m, o)
    ensures After(indexes, m, id, o) == Replace(indexes, m, id, o)
  {
    var base := m - {id};
    ConflictsEvicted(indexes, base, o, EvictAll(indexes, base, o, |indexes|));
  }

  lemma ConflictsEvicted<O>(indexes: seq<Index<O>>, m: map<i64, O>, o: O, r: map<i64, O>)
    requires UniqueKeys(indexes, m) && AllHarmless(indexes, m) && HarmlessTo(indexes, m, o)
    requires r == EvictAll(indexes, m, o, |indexes|)
    ensures r == map x | x in m && !Conflict(indexes, m[x], o) :: m[x]
  {
    EvictAllStrikes(indexes, m, o, |indexes|);
    ConflictsStruck(indexes, m, o);
  }

  lemma ConflictsStruck<O>(indexes: seq<Index<O>>, m: map<i64, O>, o: O)
    requires UniqueKeys(indexes, m) && AllHarmless(indexes, m) && HarmlessTo(indexes, m, o)
    ensures StrikeAll(AllHeld(indexes, m, o), m.Keys, |indexes|) == m.Keys - InConflict(indexes, m, o)
  {
    var held, conflicts := AllHeld(indexes, m, o), InConflict(indexes, m, o);
    var direct := AllDirect(indexes, m, o);
    forall i | 0 <= i < |indexes| ensures Separate(held[i], direct[i], conflicts) {
      HeldSeparate(indexes, m, o, i);
    }
    forall x | x in conflicts ensures exists i :: 0 <= i < |direct| && x in direct[i] {
      var i :| 0 <= i < |indexes| && ConflictAt(indexes[i], m[x], o);
      assert x in direct[i];
    }
    StrikeAllExact(held, direct, conflicts, m.Keys);
  }

  lemma CoincidingGoes<O>(indexes: seq<Index<O>>, m: map<i64, O>, x: i64, b: O, i: nat, n: nat)
    requires i < n <= |indexes| && m.Keys == {x} && CoincideAt(indexes[i], m[x], b)
    ensures x !in EvictAll(indexes, m, b, n)
  {
    EvictAllStrikes(indexes, m, b, n);
    assert x in Held(indexes[i], m, b);
    HeldGoes(AllHeld(indexes, m, b), x, i, n);
  }

  /**
   Every put into every collection of distinct unique keys removes exactly the conflicting objects,
   if and only if keys with and without a null never coincide, other than for objects that are in
   conflict anyway.
   */
  lemma PutExact<O(!new)>(indexes: seq<Index<O>>)
    ensures (forall m: map<i64, O>, id: i64, o: O :: UniqueKeys(indexes, m) ==>
               After(indexes, m, id, o) == Replace(indexes, m, id, o))
            <==> (forall a: O, b: O :: Harmless(indexes, a, b))
  {
    if forall a: O, b: O :: Harmless(indexes, a, b) {
      forall m: map<i64, O>, id: i64, o: O | UniqueKeys(indexes, m)
        ensures After(indexes, m, id, o) == Replace(indexes, m, id, o)
      {
        PutReplaces(indexes, m, id, o);
      }
    } else {
      var a: O, b: O :| !Harmless(indexes, a, b);
      HarmfulPut(indexes, a, b);
    }
  }

  lemma HarmfulPut<O>(indexes: seq<Index<O>>, a: O, b: O)
    requires !Harmless(indexes, a, b)
    ensures UniqueKeys(indexes, map[1 := a])
    ensures After(indexes, map[1 := a], 2, b) != Replace(indexes, map[1 := a], 2, b)
  {
    var i :| 0 <= i < |indexes| && CoincideAt(indexes[i], a, b);
    CoincidingGoes(indexes, map[1 := a], 1, b, i, |indexes|);
    assert map[1 := a] - {2} == map[1 := a];
    assert 1 in Replace(indexes, map[1 := a], 2, b);
    assert 1 !in After(indexes, map[1 := a], 2, b);
  }

  /** Putting keeps the unique keys distinct. */
  lemma ReplaceKeepsUnique<O>(indexes: seq<Index<O>>, m: map<i64, O>, id: i64, o: O)
    requires UniqueKeys(indexes, m)
    ensures UniqueKeys(indexes, Replace(indexes, m, id, o))
  {
    var r := Replace(indexes, m, id, o);
    forall x, y | x in r && y in r && x != y ensures !Conflict(indexes, r[x], r[y]) {
      ConflictSymmetric(indexes, r[x], r[y]);
      ConflictSymmetric(indexes, r[x], o);
    }
  }

  /** Which objects coincide in an index over plain short keys: "\0" and null in the last place. */
  lemma CoincidesExactly<O>(ix: Index<O>, a: O, b: O)
    requires ix.unique && !ix.hash && !HasNull(ix.read(b)) && HasNull(ix.read(a))
    requires SameShape(ix.read(b), ix.read(a)) && StringLast(ix.read(b))
    requires |AllBytes(ix.read(a))| <= MAX_INDEX_SIZE && |AllBytes(ix.read(b))| <= MAX_INDEX_SIZE
    ensures var xs, ys := ix.read(b), ix.read(a);
            CoincideAt(ix, a, b) <==>
              && |xs| > 0 && xs[|xs| - 1] == StringKey(Some([0])) && ys[|xs| - 1] == StringKey(None)
              && CompareTuples(xs[..|xs| - 1], ys[..|xs| - 1]) == Equal
  {
    ShortKeysUnchanged(ix.read(a), ix.xxh3);
    ShortKeysUnchanged(ix.read(b), ix.xxh3);
    NullKeysCoincide(ix.read(b), ix.read(a));
  }

  // ----- indexes over other representations of the same objects

  /** The index entries of `a` and `b` are the same. */
  ghost predicate AlikeAt<O, P>(ix: Index<O>, other: Index<P>, a: O, b: P) {
    ix.unique == other.unique && ix.hash == other.hash && ix.xxh3 == other.xxh3 && ix.read(a) == other.read(b)
  }

  ghost predicate Alike<O, P>(indexes: seq<Index<O>>, others: seq<Index<P>>, a: O, b: P) {
    && |indexes| == |others|
    && forall i {:trigger AlikeAt(indexes[i], others[i], a, b)} :: 0 <= i < |indexes| ==>
         AlikeAt(indexes[i], others[i], a, b)
  }

  ghost predicate AllAlike<O, P>(indexes: seq<Index<O>>, others: seq<Index<P>>, m: map<i64, O>, v: map<i64, P>) {
    && m.Keys == v.Keys
    && forall x {:trigger Alike(indexes, others, m[x], v[x])} :: x in m ==> Alike(indexes, others, m[x], v[x])
  }

  lemma ConflictAlike<O, P>(indexes: seq<Index<O>>, others: seq<Index<P>>, a: O, b: O, v: P, w: P)
    requires Alike(indexes, others, a, v) && Alike(indexes, others, b, w)
    ensures Conflict(indexes, a, b) <==> Conflict(others, v, w)
    ensures Coincide(indexes, a, b) <==> Coincide(others, v, w)
  {
    forall i | 0 <= i < |indexes|
      ensures ConflictAt(indexes[i], a, b) <==> ConflictAt(others[i], v, w)
      ensures CoincideAt(indexes[i], a, b) <==> CoincideAt(others[i], v, w)
    {
      assert AlikeAt(indexes[i], others[i], a, v) && AlikeAt(indexes[i], others[i], b, w);
    }
  }

  lemma UniqueAlike<O, P>(indexes: seq<Index<O>>, others: seq<Index<P>>, m: map<i64, O>, v: map<i64, P>)
    requires AllAlike(indexes, others, m, v)
    ensures UniqueKeys(indexes, m) <==> UniqueKeys(others, v)
  {
    forall x, y | x in m && y in m ensures Conflict(indexes, m[x], m[y]) <==> Conflict(others, v[x], v[y]) {
      assert Alike(indexes, others, m[x], v[x]) && Alike(indexes, others, m[y], v[y]);
      ConflictAlike(indexes, others, m[x], m[y], v[x], v[y]);
    }
  }

  lemma HeldAlike<O, P>(indexes: seq<Index<O>>, others: seq<Index<P>>, m: map<i64, O>, v: map<i64, P>, o: O, p: P,
                        i: nat)
    requires AllAlike(indexes, others, m, v) && Alike(indexes, others, o, p) && i < |indexes|
    ensures Held(indexes[i], m, o) == Held(others[i], v, p)
  {
    assert AlikeAt(indexes[i], others[i], o, p);
    forall x | x in m ensures indexes[i].Key(m[x]) == others[i].Key(v[x]) {
      assert Alike(indexes, others, m[x], v[x]);
      assert AlikeAt(indexes[i], others[i], m[x], v[x]);
    }
    SameHolders(indexes[i], others[i], m, v, indexes[i].Key(o));
  }

  lemma SameHolders<O, P>(ix: Index<O>, other: Index<P>, m: map<i64, O>, v: map<i64, P>, key: seq<byte>)
    requires m.Keys == v.Keys && forall x {:trigger m[x]} :: x in m ==> ix.Key(m[x]) == other.Key(v[x])
    ensures Holders(ix, m, key) == Holders(other, v, key)
  {
  }

  lemma AllHeldAlike<O, P>(indexes: seq<Index<O>>, others: seq<Index<P>>, m: map<i64, O>, v: map<i64, P>, o: O, p: P)
    requires AllAlike(indexes, others, m, v) && Alike(indexes, others, o, p)
    ensures AllHeld(indexes, m, o) == AllHeld(others, v, p)
  {
    forall i | 0 <= i < |indexes| ensures AllHeld(indexes, m, o)[i] == AllHeld(others, v, p)[i] {
      HeldAlike(indexes, others, m, v, o, p, i);
    }
  }

  lemma EvictAllAlike<O, P>(indexes: seq<Index<O>>, others: seq<Index<P>>, m: map<i64, O>, v: map<i64, P>, o: O, p: P,
                            n: nat)
    requires AllAlike(indexes, others, m, v) && Alike(indexes, others, o, p) && n <= |indexes|
    ensures AllAlike(indexes, others, EvictAll(indexes, m, o, n), EvictAll(others, v, p, n))
  {
    AllHeldAlike(indexes, others, m, v, o, p);
    EvictAllStrikes(indexes, m, o, n);
    EvictAllStrikes(others, v, p, n);
  }

  /** What a put does depends on the index entries alone. */
  lemma AfterAlike<O, P>(indexes: seq<Index<O>>, others: seq<Index<P>>, m: map<i64, O>, v: map<i64, P>, id: i64,
                         o: O, p: P)
    requires AllAlike(indexes, others, m, v) && Alike(indexes, others, o, p)
    ensures AllAlike(indexes, others, After(indexes, m, id, o), After(others, v, id, p))
  {
    EvictAllAlike(indexes, others, m - {id}, v - {id}, o, p, |indexes|);
  }
}
