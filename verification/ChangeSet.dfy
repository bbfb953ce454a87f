/**
 Which watchers a transaction notifies. Registering a change stops at the first watcher of a list that is
 registered already; that must not lose watchers.
 */
module ChangeSet {
  type WatcherId = nat

  /** Every list of plain watchers: one per collection, one per watched object. */
  datatype ListKey = CollectionList(collection: nat) | ObjectList(collection: nat, id: int)

  datatype QueryWatcher<!Q> = QueryWatcher(query: Q, watcher: WatcherId)

  /** All watchers there are. */
  datatype Watchers<!Q> =
    Watchers(lists: map<ListKey, seq<WatcherId>>, queries: map<nat, seq<QueryWatcher<Q>>>,
             detailed: map<nat, seq<WatcherId>>)

  function Elements(list: seq<WatcherId>): set<WatcherId> { set i | 0 <= i < |list| :: list[i] }

  // ----- one list

  /** Marking with the early exit. */
  function Marked(changes: set<WatcherId>, list: seq<WatcherId>): set<WatcherId>
    decreases |list|
  {
    if list == [] || list[0] in changes then changes else Marked(changes + {list[0]}, list[1..])
  }

  /** After the first registered watcher all are registered. */
  ghost predicate UnregisteredFirst(changes: set<WatcherId>, list: seq<WatcherId>) {
    forall i, j :: 0 <= i < j < |list| && list[i] in changes ==> list[j] in changes
  }

  ghost predicate Distinct(list: seq<WatcherId>) {
    forall i, j :: 0 <= i < j < |list| ==> list[i] != list[j]
  }

  /**
   Stopping early registers the same watchers as a full scan exactly when no unregistered one comes
   after a registered one.
   */
  lemma {:induction false} MarkedExact(changes: set<WatcherId>, list: seq<WatcherId>)
    requires Distinct(list)
    ensures Marked(changes, list) == changes + Elements(list) <==> UnregisteredFirst(changes, list)
    ensures changes <= Marked(changes, list) <= changes + Elements(list)
    decreases |list|
  {
    if list == [] {
    } else {
      ElementsSplit(list);
      if list[0] in changes {
        assert Elements(list) <= changes <==> UnregisteredFirst(changes, list) by {
          forall j | 0 <= j < |list| ensures list[j] in Elements(list) { }
        }
      } else {
        var more, rest := changes + {list[0]}, list[1..];
        MarkedExact(more, rest);
        assert more + Elements(rest) == changes + Elements(list);
        assert forall i :: 0 <= i < |rest| ==> rest[i] == list[i + 1] && (rest[i] in more <==> list[i + 1] in changes);
        assert UnregisteredFirst(more, rest) <==> UnregisteredFirst(changes, list) by {
          RestUnregistered(changes, list);
        }
      }
    }
  }

  lemma RestUnregistered(changes: set<WatcherId>, list: seq<WatcherId>)
    requires Distinct(list) && list != [] && list[0] !in changes
    ensures UnregisteredFirst(changes + {list[0]}, list[1..]) <==> UnregisteredFirst(changes, list)
  {
    var more, rest := changes + {list[0]}, list[1..];
    if UnregisteredFirst(more, rest) {
      forall i, j | 0 <= i < j < |list| && list[i] in changes ensures list[j] in changes {
        assert rest[i - 1] in more && rest[j - 1] in more;
      }
    }
    if UnregisteredFirst(changes, list) {
      forall i, j | 0 <= i < j < |rest| && rest[i] in more ensures rest[j] in more {
        assert list[i + 1] in changes && list[j + 1] in changes;
      }
    }
  }

  lemma ElementsSplit(list: seq<WatcherId>)
    requires list != []
    ensures Elements(list) == {list[0]} + Elements(list[1..])
  {
    forall x | x in Elements(list) ensures x in {list[0]} + Elements(list[1..]) {
      var i :| 0 <= i < |list| && list[i] == x;
      if i > 0 { assert list[1..][i - 1] == x; }
    }
    forall x | x in Elements(list[1..]) ensures x in Elements(list) {
      var i :| 0 <= i < |list[1..]| && list[1..][i] == x;
      assert list[i + 1] == x;
    }
  }

  // ----- all lists

  function ListAt<Q>(w: Watchers<Q>, k: ListKey): seq<WatcherId> {
    if k in w.lists then w.lists[k] else []
  }

  function QueriesAt<Q>(w: Watchers<Q>, collection: nat): seq<QueryWatcher<Q>> {
    if collection in w.queries then w.queries[collection] else []
  }

  function DetailedAt<Q>(w: Watchers<Q>, collection: nat): seq<WatcherId> {
    if collection in w.detailed then w.detailed[collection] else []
  }

  /** Watcher ids are unique. */
  ghost predicate WellFormed<Q>(w: Watchers<Q>) {
    && (forall k :: k in w.lists ==> Distinct(w.lists[k]))
    && (forall k, l :: k in w.lists && l in w.lists && k != l ==> Elements(w.lists[k]) !! Elements(w.lists[l]))
    && (forall c, i, k :: c in w.queries && 0 <= i < |w.queries[c]| && k in w.lists ==>
          w.queries[c][i].watcher !in Elements(w.lists[k]))
  }

  /** Every list is registered as a whole or not at all. */
  ghost predicate Whole<Q>(w: Watchers<Q>, changes: set<WatcherId>) {
    forall k :: k in w.lists ==> Elements(w.lists[k]) <= changes || Elements(w.lists[k]) !! changes
  }

  lemma WholeIsUnregisteredFirst(changes: set<WatcherId>, list: seq<WatcherId>)
    requires Elements(list) <= changes || Elements(list) !! changes
    ensures UnregisteredFirst(changes, list)
  {
    assert forall i :: 0 <= i < |list| ==> list[i] in Elements(list);
  }

  /** On whole lists the early exit loses nothing. */
  lemma MarkedWhole<Q>(w: Watchers<Q>, changes: set<WatcherId>, k: ListKey)
    requires WellFormed(w) && Whole(w, changes)
    ensures Marked(changes, ListAt(w, k)) == changes + Elements(ListAt(w, k))
    ensures Whole(w, changes + Elements(ListAt(w, k)))
  {
    WholeIsUnregisteredFirst(changes, ListAt(w, k));
    MarkedExact(changes, ListAt(w, k));
  }

  // ----- what a full scan registers

  function Matching<Q, O>(qs: seq<QueryWatcher<Q>>, matches: (Q, int, O) -> bool, id: int, o: O): set<WatcherId> {
    set i | 0 <= i < |qs| && matches(qs[i].query, id, o) :: qs[i].watcher
  }

  function Affected<Q, O>(w: Watchers<Q>, matches: (Q, int, O) -> bool, c: nat, id: int, o: O): set<WatcherId> {
    Elements(ListAt(w, CollectionList(c))) + Elements(ListAt(w, ObjectList(c, id)))
        + Matching(QueriesAt(w, c), matches, id, o)
  }

  function ObjectLists<Q>(w: Watchers<Q>, c: nat): set<ListKey> {
    set k | k in w.lists && k.ObjectList? && k.collection == c
  }

  function ElementsOf<Q>(w: Watchers<Q>, keys: set<ListKey>): set<WatcherId> {
    set k, i | k in keys && k in w.lists && 0 <= i < |w.lists[k]| :: w.lists[k][i]
  }

  function QueryIds<Q>(qs: seq<QueryWatcher<Q>>): set<WatcherId> { set i | 0 <= i < |qs| :: qs[i].watcher }

  function AffectedByAll<Q>(w: Watchers<Q>, c: nat): set<WatcherId> {
    Elements(ListAt(w, CollectionList(c))) + ElementsOf(w, ObjectLists(w, c)) + QueryIds(QueriesAt(w, c))
  }

  lemma QueriesKeepWhole<Q>(w: Watchers<Q>, changes: set<WatcherId>, c: nat, more: set<WatcherId>)
    requires WellFormed(w) && Whole(w, changes) && more <= QueryIds(QueriesAt(w, c))
    ensures Whole(w, changes + more)
  {
    forall k | k in w.lists ensures Elements(w.lists[k]) !! more {
      forall x | x in more ensures x !in Elements(w.lists[k]) {
        var i :| 0 <= i < |QueriesAt(w, c)| && QueriesAt(w, c)[i].watcher == x;
      }
    }
  }

  // ----- the change set

  class ChangeSet<Q(!new), O(!new), D> {
    const matches: (Q, int, O) -> bool
    var changes: set<WatcherId>
    var detailedChanges: seq<D>
    var detailedWatchers: seq<WatcherId>

    constructor (matches: (Q, int, O) -> bool)
      ensures this.matches == matches && changes == {} && detailedChanges == [] && detailedWatchers == []
    {
      this.matches, changes, detailedChanges, detailedWatchers := matches, {}, [], [];
    }

    method RegisterDetailedChange(change: D)
      modifies `detailedChanges
      ensures detailedChanges == old(detailedChanges) + [change]
    {
      detailedChanges := detailedChanges + [change];
    }

    /** `register_detailed_changes_for_watchers`: no watcher is added twice. */
    method RegisterDetailedWatchers(watchers: seq<WatcherId>)
      requires Distinct(detailedWatchers)
      modifies `detailedWatchers
      ensures Distinct(detailedWatchers)
      ensures old(detailedWatchers) <= detailedWatchers
      ensures Elements(detailedWatchers) == old(Elements(detailedWatchers)) + Elements(watchers)
    {
      for i := 0 to |watchers|
        invariant Distinct(detailedWatchers) && old(detailedWatchers) <= detailedWatchers
        invariant Elements(detailedWatchers) == old(Elements(detailedWatchers)) + Elements(watchers[..i])
      {
        ElementsSnoc(watchers[..i], watchers[i]);
        assert watchers[..i + 1] == watchers[..i] + [watchers[i]];
        if watchers[i] !in detailedWatchers {
          ElementsSnoc(detailedWatchers, watchers[i]);
          detailedWatchers := detailedWatchers + [watchers[i]];
        } else {
          var j :| 0 <= j < |detailedWatchers| && detailedWatchers[j] == watchers[i];
        }
      }
      assert watchers[..|watchers|] == watchers;
    }

    method MarkWatchersChanged(watchers: seq<WatcherId>)
      modifies `changes
      ensures changes == Marked(old(changes), watchers)
    {
      for i := 0 to |watchers|
        invariant Marked(changes, watchers[i..]) == Marked(old(changes), watchers)
      {
        if watchers[i] !in changes {
          assert watchers[i..][1..] == watchers[i + 1..];
          changes := changes + {watchers[i]};
        } else {
          break;
        }
      }
    }

    method RegisterChange(w: Watchers<Q>, c: nat, id: int, o: O)
      requires WellFormed(w) && Whole(w, changes)
      modifies `changes
      ensures changes == old(changes) + Affected(w, matches, c, id, o)
      ensures Whole(w, changes)
    {
      MarkedWhole(w, changes, CollectionList(c));
      MarkWatchersChanged(ListAt(w, CollectionList(c)));
      MarkedWhole(w, changes, ObjectList(c, id));
      if ObjectList(c, id) in w.lists {
        MarkWatchersChanged(w.lists[ObjectList(c, id)]);
      }
      QueriesKeepWhole(w, changes, c, Matching(QueriesAt(w, c), matches, id, o));
      RegisterQueries(QueriesAt(w, c), id, o);
    }

    method RegisterQueries(qs: seq<QueryWatcher<Q>>, id: int, o: O)
      modifies `changes
      ensures changes == old(changes) + Matching(qs, matches, id, o)
    {
      for i := 0 to |qs|
        invariant changes == old(changes) + Matching(qs[..i], matches, id, o)
      {
        MatchingSnoc(qs[..i], qs[i], matches, id, o);
        assert qs[..i + 1] == qs[..i] + [qs[i]];
        if qs[i].watcher !in changes && matches(qs[i].query, id, o) {
          changes := changes + {qs[i].watcher};
        }
      }
      assert qs[..|qs|] == qs;
    }

    method RegisterAll(w: Watchers<Q>, c: nat)
      requires WellFormed(w) && Whole(w, changes)
      modifies `changes
      ensures changes == old(changes) + AffectedByAll(w, c)
      ensures Whole(w, changes)
    {
      MarkedWhole(w, changes, CollectionList(c));
      MarkWatchersChanged(ListAt(w, CollectionList(c)));
      MarkObjectLists(w, c);
      QueriesKeepWhole(w, changes, c, QueryIds(QueriesAt(w, c)));
      var qs := QueriesAt(w, c);
      ghost var before := changes;
      for i := 0 to |qs|
        invariant changes == before + QueryIds(qs[..i])
      {
        QueryIdsSnoc(qs[..i], qs[i]);
        assert qs[..i + 1] == qs[..i] + [qs[i]];
        changes := changes + {qs[i].watcher};
      }
      assert qs[..|qs|] == qs;
    }

    method MarkList(w: Watchers<Q>, k: ListKey, ghost seen: set<ListKey>, ghost before: set<WatcherId>)
      requires WellFormed(w) && Whole(w, changes) && k in w.lists && changes == before + ElementsOf(w, seen)
      modifies `changes
      ensures changes == before + ElementsOf(w, seen + {k}) && Whole(w, changes)
    {
      MarkedWhole(w, changes, k);
      MarkWatchersChanged(w.lists[k]);
      ElementsOfMore(w, seen, k);
    }

    /** The lists of the watched objects, in whatever order the map has. */
    method MarkObjectLists(w: Watchers<Q>, c: nat)
      requires WellFormed(w) && Whole(w, changes)
      modifies `changes
      ensures changes == old(changes) + ElementsOf(w, ObjectLists(w, c))
      ensures Whole(w, changes)
    {
      var rest := ObjectLists(w, c);
      ghost var seen: set<ListKey> := {};
      while rest != {}
        invariant seen + rest == ObjectLists(w, c) && Whole(w, changes)
        invariant changes == old(changes) + ElementsOf(w, seen)
        decreases |rest|
      {
        var k :| k in rest;
        MarkList(w, k, seen, old(changes));
        rest, seen := rest - {k}, seen + {k};
      }
    }

    /** Every registered watcher once; every detailed watcher once for every detailed change. */
    method NotifyWatchers() returns (calls: seq<WatcherId>, detailed: seq<(nat, WatcherId)>)
      requires Distinct(detailedWatchers)
      ensures Distinct(calls) && Elements(calls) == changes
      ensures forall i, j :: 0 <= i < j < |detailed| ==> detailed[i] != detailed[j]
      ensures forall d: nat, x :: (d, x) in detailed <==> d < |detailedChanges| && x in detailedWatchers
    {
      calls := CallAll();
      detailed := [];
      if detailedChanges != [] && detailedWatchers != [] {
        for d := 0 to |detailedChanges|
          invariant forall i :: 0 <= i < |detailed| ==> detailed[i].0 < d && detailed[i].1 in detailedWatchers
          invariant forall i, j :: 0 <= i < j < |detailed| ==> detailed[i] != detailed[j]
          invariant forall e: nat, x :: e < d && x in detailedWatchers ==> (e, x) in detailed
        {
          var row := NotifyAll(d);
          ghost var before := detailed;
          detailed := detailed + row;
          assert forall p :: p in detailed <==> p in before || p in row;
        }
      }
    }

    /** One detailed change to every detailed watcher. */
    method NotifyAll(d: nat) returns (row: seq<(nat, WatcherId)>)
      requires Distinct(detailedWatchers)
      ensures |row| == |detailedWatchers| && forall j :: 0 <= j < |row| ==> row[j] == (d, detailedWatchers[j])
      ensures forall x :: x in detailedWatchers ==> (d, x) in row
    {
      row := [];
      for i := 0 to |detailedWatchers|
        invariant |row| == i && forall j :: 0 <= j < i ==> row[j] == (d, detailedWatchers[j])
      {
        row := row + [(d, detailedWatchers[i])];
      }
      forall x | x in detailedWatchers ensures (d, x) in row {
        var j :| 0 <= j < |detailedWatchers| && detailedWatchers[j] == x;
        assert row[j] == (d, x);
      }
    }

    method CallAll() returns (calls: seq<WatcherId>)
      ensures Distinct(calls) && Elements(calls) == changes
    {
      calls := [];
      var rest := changes;
      while rest != {}
        invariant Distinct(calls) && Elements(calls) + rest == changes && Elements(calls) !! rest
        decreases |rest|
      {
        var x :| x in rest;
        ElementsSnoc(calls, x);
        assert forall i :: 0 <= i < |calls| ==> calls[i] in Elements(calls);
        calls, rest := calls + [x], rest - {x};
      }
    }
  }

  lemma ElementsSnoc(list: seq<WatcherId>, x: WatcherId)
    ensures Elements(list + [x]) == Elements(list) + {x}
  {
    var more := list + [x];
    assert more[|list|] == x;
    forall y | y in Elements(list) ensures y in Elements(more) {
      var i :| 0 <= i < |list| && list[i] == y;
      assert more[i] == y;
    }
  }

  lemma MatchingSnoc<Q, O>(qs: seq<QueryWatcher<Q>>, q: QueryWatcher<Q>, matches: (Q, int, O) -> bool, id: int, o: O)
    ensures Matching(qs + [q], matches, id, o)
        == Matching(qs, matches, id, o) + if matches(q.query, id, o) then {q.watcher} else {}
  {
    var more := qs + [q];
    assert more[|qs|] == q;
    forall y | y in Matching(qs, matches, id, o) ensures y in Matching(more, matches, id, o) {
      var i :| 0 <= i < |qs| && matches(qs[i].query, id, o) && qs[i].watcher == y;
      assert more[i] == qs[i];
    }
  }

  lemma QueryIdsSnoc<Q>(qs: seq<QueryWatcher<Q>>, q: QueryWatcher<Q>)
    ensures QueryIds(qs + [q]) == QueryIds(qs) + {q.watcher}
  {
    var more := qs + [q];
    assert more[|qs|] == q;
    forall y | y in QueryIds(qs) ensures y in QueryIds(more) {
      var i :| 0 <= i < |qs| && qs[i].watcher == y;
      assert more[i] == qs[i];
    }
  }

  lemma ElementsOfMore<Q>(w: Watchers<Q>, keys: set<ListKey>, k: ListKey)
    requires k in w.lists
    ensures ElementsOf(w, keys + {k}) == ElementsOf(w, keys) + Elements(w.lists[k])
  {
  }

  // ----- runs during which watchers are removed

  function Retain(list: seq<WatcherId>, x: WatcherId): seq<WatcherId> {
    if list == [] then [] else (if list[0] == x then [] else [list[0]]) + Retain(list[1..], x)
  }

  function RetainQueries<Q>(qs: seq<QueryWatcher<Q>>, x: WatcherId): seq<QueryWatcher<Q>> {
    if qs == [] then [] else (if qs[0].watcher == x then [] else [qs[0]]) + RetainQueries(qs[1..], x)
  }

  function Removed<Q>(w: Watchers<Q>, x: WatcherId): Watchers<Q> {
    Watchers(map k | k in w.lists :: Retain(w.lists[k], x), map c | c in w.queries :: RetainQueries(w.queries[c], x),
             map c | c in w.detailed :: Retain(w.detailed[c], x))
  }

  lemma {:induction false} RetainElements(list: seq<WatcherId>, x: WatcherId)
    ensures Elements(Retain(list, x)) == Elements(list) - {x}
  {
    if list == [] {
      assert Retain(list, x) == [];
    } else {
      ElementsSplit(list);
      RetainElements(list[1..], x);
      if list[0] == x {
        assert Retain(list, x) == Retain(list[1..], x);
      } else {
        assert Retain(list, x) == [list[0]] + Retain(list[1..], x);
        ElementsSplit(Retain(list, x));
        assert Retain(list, x)[1..] == Retain(list[1..], x);
      }
    }
  }

  lemma {:induction false} RetainDistinct(list: seq<WatcherId>, x: WatcherId)
    requires Distinct(list)
    ensures Distinct(Retain(list, x))
  {
    if list == [] {
    } else {
      var rest := Retain(list[1..], x);
      RetainDistinct(list[1..], x);
      RetainElements(list[1..], x);
      assert forall i :: 0 <= i < |list[1..]| ==> list[1..][i] == list[i + 1] != list[0];
      assert list[0] !in Elements(list[1..]);
      assert forall i :: 0 <= i < |rest| ==> rest[i] in Elements(rest);
    }
  }

  lemma {:induction false} RetainQueriesKeeps<Q>(qs: seq<QueryWatcher<Q>>, x: WatcherId, q: QueryWatcher<Q>)
    ensures q in RetainQueries(qs, x) <==> q in qs && q.watcher != x
  {
    if qs == [] {
    } else {
      RetainQueriesKeeps(qs[1..], x, q);
      assert q in qs <==> q == qs[0] || q in qs[1..];
    }
  }

  lemma InElements(list: seq<WatcherId>, x: WatcherId)
    ensures x in Elements(list) <==> x in list
  {
    if x in list {
      var i :| 0 <= i < |list| && list[i] == x;
      assert list[i] in Elements(list);
    }
  }

  lemma RetainMembers(list: seq<WatcherId>, x: WatcherId, y: WatcherId)
    ensures y in Retain(list, x) <==> y in list && y != x
  {
    RetainElements(list, x);
    InElements(list, y);
    InElements(Retain(list, x), y);
  }

  lemma RemovalKeeps<Q>(w: Watchers<Q>, x: WatcherId, changes: set<WatcherId>)
    requires WellFormed(w) && Whole(w, changes)
    ensures WellFormed(Removed(w, x)) && Whole(Removed(w, x), changes)
  {
    var r := Removed(w, x);
    forall k | k in w.lists
      ensures Distinct(r.lists[k]) && Elements(r.lists[k]) == Elements(w.lists[k]) - {x}
    {
      RetainElements(w.lists[k], x);
      RetainDistinct(w.lists[k], x);
    }
    forall c, i, k | c in r.queries && 0 <= i < |r.queries[c]| && k in r.lists
      ensures r.queries[c][i].watcher !in Elements(r.lists[k])
    {
      var q := r.queries[c][i];
      RetainQueriesKeeps(w.queries[c], x, q);
      var j :| 0 <= j < |w.queries[c]| && w.queries[c][j] == q;
    }
  }

  /** What happens while the change set is open, in any order. */
  datatype Event<!O, +D> =
    | ChangeEvent(collection: nat, id: int, o: O)
    | AllEvent(collection: nat)
    | DetailedWatchersEvent(collection: nat)
    | DetailedChangeEvent(change: D)
    | RemoveEvent(watcher: WatcherId)

  /** The watchers there are after an event. */
  function WatchersAfter<Q, O, D>(w: Watchers<Q>, e: Event<O, D>): Watchers<Q> {
    if e.RemoveEvent? then Removed(w, e.watcher) else w
  }

  /** The plain and the detailed watchers one event concerns, and the detailed change it brings. */
  function PlainOf<Q, O, D>(w: Watchers<Q>, matches: (Q, int, O) -> bool, e: Event<O, D>): set<WatcherId> {
    match e
    case ChangeEvent(c, id, o) => Affected(w, matches, c, id, o)
    case AllEvent(c) => AffectedByAll(w, c)
    case _ => {}
  }

  function DetailedOf<Q, O, D>(w: Watchers<Q>, e: Event<O, D>): set<WatcherId> {
    if e.DetailedWatchersEvent? then Elements(DetailedAt(w, e.collection)) else {}
  }

  function ChangeOf<O, D>(e: Event<O, D>): seq<D> { if e.DetailedChangeEvent? then [e.change] else [] }

  /** The plain watchers concerned by the events, without any early exit. */
  function FullScan<Q, O, D>(w: Watchers<Q>, matches: (Q, int, O) -> bool, events: seq<Event<O, D>>): set<WatcherId>
    decreases |events|
  {
    if events == [] then {}
    else PlainOf(w, matches, events[0]) + FullScan(WatchersAfter(w, events[0]), matches, events[1..])
  }

  /** The detailed watchers registered at some point. */
  function DetailedScan<Q, O, D>(w: Watchers<Q>, events: seq<Event<O, D>>): set<WatcherId>
    decreases |events|
  {
    if events == [] then {} else DetailedOf(w, events[0]) + DetailedScan(WatchersAfter(w, events[0]), events[1..])
  }

  function DetailedChanges<O, D>(events: seq<Event<O, D>>): seq<D> {
    if events == [] then [] else ChangeOf(events[0]) + DetailedChanges(events[1..])
  }

  // ----- the same, watcher by watcher

  /** The watcher is in the list of the collection or of the object, or watches a query that matches. */
  ghost predicate Concerns<Q, O, D>(w: Watchers<Q>, matches: (Q, int, O) -> bool, e: Event<O, D>, x: WatcherId) {
    match e
    case ChangeEvent(c, id, o) =>
      || (CollectionList(c) in w.lists && x in w.lists[CollectionList(c)])
      || (ObjectList(c, id) in w.lists && x in w.lists[ObjectList(c, id)])
      || (c in w.queries && exists i :: 0 <= i < |w.queries[c]| && w.queries[c][i].watcher == x
                                                  && matches(w.queries[c][i].query, id, o))
    case AllEvent(c) =>
      || (CollectionList(c) in w.lists && x in w.lists[CollectionList(c)])
      || (exists id :: ObjectList(c, id) in w.lists && x in w.lists[ObjectList(c, id)])
      || (c in w.queries && exists i :: 0 <= i < |w.queries[c]| && w.queries[c][i].watcher == x)
    case _ => false
  }

  predicate ConcernsDetailed<Q, O, D>(w: Watchers<Q>, e: Event<O, D>, x: WatcherId) {
    e.DetailedWatchersEvent? && e.collection in w.detailed && x in w.detailed[e.collection]
  }

  lemma PlainOfExactly<Q, O, D>(w: Watchers<Q>, matches: (Q, int, O) -> bool, e: Event<O, D>, x: WatcherId)
    ensures x in PlainOf(w, matches, e) <==> Concerns(w, matches, e, x)
  {
    match e
    case ChangeEvent(c, id, o) =>
      InElements(ListAt(w, CollectionList(c)), x);
      InElements(ListAt(w, ObjectList(c, id)), x);
    case AllEvent(c) =>
      InElements(ListAt(w, CollectionList(c)), x);
      ObjectListsExactly(w, c, x);
    case _ =>
  }

  lemma ObjectListsExactly<Q>(w: Watchers<Q>, c: nat, x: WatcherId)
    ensures x in ElementsOf(w, ObjectLists(w, c))
       <==> exists id :: ObjectList(c, id) in w.lists && x in w.lists[ObjectList(c, id)]
  {
    if id :| ObjectList(c, id) in w.lists && x in w.lists[ObjectList(c, id)] {
      var k := ObjectList(c, id);
      assert k in ObjectLists(w, c);
      var i :| 0 <= i < |w.lists[k]| && w.lists[k][i] == x;
      assert w.lists[k][i] in ElementsOf(w, ObjectLists(w, c));
    }
    if x in ElementsOf(w, ObjectLists(w, c)) {
      var k, i :| k in ObjectLists(w, c) && k in w.lists && 0 <= i < |w.lists[k]| && w.lists[k][i] == x;
      assert k == ObjectList(c, k.id);
    }
  }

  lemma WatchesRetained<Q, O>(qs: seq<QueryWatcher<Q>>, y: WatcherId, matches: (Q, int, O) -> bool, id: int, o: O,
                              x: WatcherId)
    ensures var r := RetainQueries(qs, y);
            && ((exists i :: 0 <= i < |r| && r[i].watcher == x && matches(r[i].query, id, o))
                <==> x != y && exists i :: 0 <= i < |qs| && qs[i].watcher == x && matches(qs[i].query, id, o))
  {
    var r := RetainQueries(qs, y);
    if i :| 0 <= i < |r| && r[i].watcher == x && matches(r[i].query, id, o) {
      RetainQueriesKeeps(qs, y, r[i]);
      var j :| 0 <= j < |qs| && qs[j] == r[i];
    }
    if i :| 0 <= i < |qs| && qs[i].watcher == x != y && matches(qs[i].query, id, o) {
      RetainQueriesKeeps(qs, y, qs[i]);
      var j :| 0 <= j < |r| && r[j] == qs[i];
    }
  }

  lemma QueriesRetained<Q>(qs: seq<QueryWatcher<Q>>, y: WatcherId, x: WatcherId)
    ensures var r := RetainQueries(qs, y);
            (exists i :: 0 <= i < |r| && r[i].watcher == x)
            <==> x != y && exists i :: 0 <= i < |qs| && qs[i].watcher == x
  {
    WatchesRetained(qs, y, (q, id, o) => true, 0, 0, x);
  }

  lemma ObjectsRetained<Q>(w: Watchers<Q>, y: WatcherId, c: nat, x: WatcherId)
    ensures var r := Removed(w, y);
            (exists id :: ObjectList(c, id) in r.lists && x in r.lists[ObjectList(c, id)])
            <==> x != y && exists id :: ObjectList(c, id) in w.lists && x in w.lists[ObjectList(c, id)]
  {
    var r := Removed(w, y);
    if id :| ObjectList(c, id) in r.lists && x in r.lists[ObjectList(c, id)] {
      RetainMembers(w.lists[ObjectList(c, id)], y, x);
    }
    if id :| x != y && ObjectList(c, id) in w.lists && x in w.lists[ObjectList(c, id)] {
      RetainMembers(w.lists[ObjectList(c, id)], y, x);
      assert ObjectList(c, id) in r.lists;
    }
  }

  /** Removing a watcher takes it out of every list and nothing else. */
  lemma RemovedConcerns<Q, O, D>(w: Watchers<Q>, y: WatcherId, matches: (Q, int, O) -> bool, e: Event<O, D>,
                                 x: WatcherId)
    ensures Concerns(Removed(w, y), matches, e, x) <==> Concerns(w, matches, e, x) && x != y
    ensures ConcernsDetailed(Removed(w, y), e, x) <==> ConcernsDetailed(w, e, x) && x != y
  {
    match e
    case ChangeEvent(c, id, o) =>
      ListRetained(w, y, CollectionList(c), x);
      ListRetained(w, y, ObjectList(c, id), x);
      WatchesRetained(QueriesAt(w, c), y, matches, id, o, x);
      assert QueriesAt(Removed(w, y), c) == RetainQueries(QueriesAt(w, c), y);
    case AllEvent(c) =>
      ListRetained(w, y, CollectionList(c), x);
      QueriesRetained(QueriesAt(w, c), y, x);
      assert QueriesAt(Removed(w, y), c) == RetainQueries(QueriesAt(w, c), y);
      ObjectsRetained(w, y, c, x);
    case DetailedWatchersEvent(c) =>
      if c in w.detailed { RetainMembers(w.detailed[c], y, x); }
    case _ =>
  }

  lemma ListRetained<Q>(w: Watchers<Q>, y: WatcherId, k: ListKey, x: WatcherId)
    ensures var r := Removed(w, y);
            && (k in r.lists <==> k in w.lists)
            && (k in w.lists ==> (x in r.lists[k] <==> x in w.lists[k] && x != y))
  {
    if k in w.lists { RetainMembers(w.lists[k], y, x); }
  }

  ghost predicate StillThere<O, D>(events: seq<Event<O, D>>, n: nat, x: WatcherId)
    requires n <= |events|
  {
    forall i :: 0 <= i < n ==> events[i] != RemoveEvent(x)
  }

  /** Event `n` concerns the watcher, and no event before has removed it. */
  ghost predicate ReachedAt<Q, O, D>(w: Watchers<Q>, matches: (Q, int, O) -> bool, events: seq<Event<O, D>>,
                                           n: nat, x: WatcherId)
    requires n < |events|
  {
    Concerns(w, matches, events[n], x) && StillThere(events, n, x)
  }

  ghost predicate ReachedDetailedAt<Q, O, D>(w: Watchers<Q>, events: seq<Event<O, D>>, n: nat, x: WatcherId)
    requires n < |events|
  {
    ConcernsDetailed(w, events[n], x) && StillThere(events, n, x)
  }

  lemma OneEventLess<Q, O, D>(w: Watchers<Q>, matches: (Q, int, O) -> bool, events: seq<Event<O, D>>, n: nat,
                              x: WatcherId)
    requires n < |events| - 1
    ensures ReachedAt(WatchersAfter(w, events[0]), matches, events[1..], n, x)
       <==> ReachedAt(w, matches, events, n + 1, x)
    ensures ReachedDetailedAt(WatchersAfter(w, events[0]), events[1..], n, x)
       <==> ReachedDetailedAt(w, events, n + 1, x)
  {
    var rest := events[1..];
    assert forall i :: 0 <= i < |rest| ==> rest[i] == events[i + 1];
    assert StillThere(events, n + 1, x) <==> events[0] != RemoveEvent(x) && StillThere(rest, n, x) by {
      if StillThere(events, n + 1, x) {
        forall i | 0 <= i < n ensures rest[i] != RemoveEvent(x) { assert events[i + 1] != RemoveEvent(x); }
      }
      if events[0] != RemoveEvent(x) && StillThere(rest, n, x) {
        forall i | 0 <= i < n + 1 ensures events[i] != RemoveEvent(x) {
          if i > 0 { assert rest[i - 1] != RemoveEvent(x); }
        }
      }
    }
    if events[0].RemoveEvent? {
      RemovedConcerns(w, events[0].watcher, matches, events[n + 1], x);
    }
  }

  /** A full scan finds exactly the watchers some event reaches before they are removed. */
  lemma {:induction false} FullScanExactly<Q, O, D>(w: Watchers<Q>, matches: (Q, int, O) -> bool,
                                                    events: seq<Event<O, D>>, x: WatcherId)
    ensures x in FullScan(w, matches, events) <==> exists n :: 0 <= n < |events| && ReachedAt(w, matches, events, n, x)
    decreases |events|
  {
    if events == [] {
    } else {
      PlainOfExactly(w, matches, events[0], x);
      assert ReachedAt(w, matches, events, 0, x) <==> Concerns(w, matches, events[0], x);
      FullScanExactly(WatchersAfter(w, events[0]), matches, events[1..], x);
      forall n | 0 <= n < |events| - 1
        ensures ReachedAt(WatchersAfter(w, events[0]), matches, events[1..], n, x)
           <==> ReachedAt(w, matches, events, n + 1, x)
      {
        OneEventLess(w, matches, events, n, x);
      }
      if n :| 0 <= n < |events| && ReachedAt(w, matches, events, n, x) {
        if n > 0 { assert ReachedAt(WatchersAfter(w, events[0]), matches, events[1..], n - 1, x); }
      }
    }
  }

  lemma {:induction false} DetailedScanExactly<Q, O, D>(w: Watchers<Q>, matches: (Q, int, O) -> bool,
                                                        events: seq<Event<O, D>>, x: WatcherId)
    ensures x in DetailedScan(w, events) <==> exists n :: 0 <= n < |events| && ReachedDetailedAt(w, events, n, x)
    decreases |events|
  {
    if events == [] {
    } else {
      if events[0].DetailedWatchersEvent? { InElements(DetailedAt(w, events[0].collection), x); }
      assert ReachedDetailedAt(w, events, 0, x) <==> ConcernsDetailed(w, events[0], x);
      DetailedScanExactly(WatchersAfter(w, events[0]), matches, events[1..], x);
      forall n | 0 <= n < |events| - 1
        ensures ReachedDetailedAt(WatchersAfter(w, events[0]), events[1..], n, x)
           <==> ReachedDetailedAt(w, events, n + 1, x)
      {
        OneEventLess(w, matches, events, n, x);
      }
      if n :| 0 <= n < |events| && ReachedDetailedAt(w, events, n, x) {
        if n > 0 { assert ReachedDetailedAt(WatchersAfter(w, events[0]), events[1..], n - 1, x); }
      }
    }
  }

  method RegisterOne<Q(!new), O(!new), D>(cs: ChangeSet<Q, O, D>, w: Watchers<Q>, e: Event<O, D>)
    requires WellFormed(w) && Whole(w, cs.changes) && Distinct(cs.detailedWatchers)
    modifies cs
    ensures Distinct(cs.detailedWatchers)
    ensures WellFormed(WatchersAfter(w, e)) && Whole(WatchersAfter(w, e), cs.changes)
    ensures cs.changes == old(cs.changes) + PlainOf(w, cs.matches, e)
    ensures Elements(cs.detailedWatchers) == Elements(old(cs.detailedWatchers)) + DetailedOf(w, e)
    ensures cs.detailedChanges == old(cs.detailedChanges) + ChangeOf(e)
  {
    match e
    case ChangeEvent(c, id, o) => cs.RegisterChange(w, c, id, o);
    case AllEvent(c) => cs.RegisterAll(w, c);
    case DetailedWatchersEvent(c) => cs.RegisterDetailedWatchers(DetailedAt(w, c));
    case DetailedChangeEvent(change) => cs.RegisterDetailedChange(change);
    case RemoveEvent(x) => RemovalKeeps(w, x, cs.changes);
  }

  lemma ScanOne<Q, O, D>(w: Watchers<Q>, matches: (Q, int, O) -> bool, events: seq<Event<O, D>>)
    requires events != []
    ensures var e, next := events[0], WatchersAfter(w, events[0]);
            && FullScan(w, matches, events) == PlainOf(w, matches, e) + FullScan(next, matches, events[1..])
            && DetailedScan(w, events) == DetailedOf(w, e) + DetailedScan(next, events[1..])
            && DetailedChanges(events) == ChangeOf(e) + DetailedChanges(events[1..])
  {
  }

  method Register<Q(!new), O(!new), D>(cs: ChangeSet<Q, O, D>, w: Watchers<Q>, events: seq<Event<O, D>>)
    requires WellFormed(w) && Whole(w, cs.changes) && Distinct(cs.detailedWatchers)
    modifies cs
    ensures Distinct(cs.detailedWatchers)
    ensures cs.changes == old(cs.changes) + FullScan(w, cs.matches, events)
    ensures Elements(cs.detailedWatchers) == Elements(old(cs.detailedWatchers)) + DetailedScan(w, events)
    ensures cs.detailedChanges == old(cs.detailedChanges) + DetailedChanges(events)
    decreases |events|
  {
    if events == [] {
    } else {
      RegisterOne(cs, w, events[0]);
      Register(cs, WatchersAfter(w, events[0]), events[1..]);
      ScanOne(w, cs.matches, events);
    }
  }

  /**
   A transaction calls exactly the plain watchers concerned, each once, and for every detailed change
   exactly the detailed watchers registered at some point, each once. The calls of detailed watchers name
   the change by its number.
   */
  method Transaction<Q(!new), O(!new), D>(w: Watchers<Q>, matches: (Q, int, O) -> bool, events: seq<Event<O, D>>)
    returns (calls: seq<WatcherId>, changes: seq<D>, detailed: seq<(nat, WatcherId)>)
    requires WellFormed(w)
    ensures Distinct(calls)
    ensures forall x: WatcherId :: x in calls <==> exists n :: 0 <= n < |events| && ReachedAt(w, matches, events, n, x)
    ensures changes == DetailedChanges(events)
    ensures forall i, j :: 0 <= i < j < |detailed| ==> detailed[i] != detailed[j]
    ensures forall d: nat, x: WatcherId ::
              (d, x) in detailed <==>
              d < |changes| && exists n :: 0 <= n < |events| && ReachedDetailedAt(w, events, n, x)
  {
    var cs := new ChangeSet<Q, O, D>(matches);
    Register(cs, w, events);
    calls, detailed := cs.NotifyWatchers();
    changes := cs.detailedChanges;
    assert forall x :: x in cs.detailedWatchers <==> x in Elements(cs.detailedWatchers);
    forall x ensures x in calls <==> x in FullScan(w, matches, events) {
      InElements(calls, x);
    }
    forall x
      ensures x in FullScan(w, matches, events)
         <==> exists n :: 0 <= n < |events| && ReachedAt(w, matches, events, n, x)
      ensures x in DetailedScan(w, events) <==> exists n :: 0 <= n < |events| && ReachedDetailedAt(w, events, n, x)
    {
      FullScanExactly(w, matches, events, x);
      DetailedScanExactly(w, matches, events, x);
    }
  }
}
