/**
 Range iteration over a sorted multimap. The cursor is the database's; its operations are given by
 their contracts. The iterator yields exactly the entries between the two keys, in the direction the
 keys say, all of them or one per key.
 */
module CursorIterator {
  import opened Bytes
  import opened LittleEndian
  import opened KeyOrder

  type Key = seq<byte>
  type Entry = (Key, seq<byte>)

  ghost predicate KeyOk(integerKey: bool, k: Key) { integerKey ==> |k| == 8 }

  ghost predicate KeysOk(integerKey: bool, es: seq<Entry>) {
    forall i :: 0 <= i < |es| ==> KeyOk(integerKey, es[i].0)
  }

  ghost predicate Sorted(integerKey: bool, es: seq<Entry>)
    requires KeysOk(integerKey, es)
  {
    forall i, j {:trigger CompareKeys(integerKey, es[i].0, es[j].0)} :: 0 <= i < j < |es| ==>
      CompareKeys(integerKey, es[i].0, es[j].0) != Greater
  }

  lemma KeysEqual(integerKey: bool, a: Key, b: Key)
    requires KeyOk(integerKey, a) && KeyOk(integerKey, b)
    ensures CompareKeys(integerKey, a, b) == Equal <==> a == b
    ensures CompareKeys(integerKey, a, b) == Less <==> CompareKeys(integerKey, b, a) == Greater
  {
    if integerKey {
      assert a[..8] == a && b[..8] == b;
      LeInverse(a);
      LeInverse(b);
    } else {
      CompareKeysIsLexicographic(a, b);
      CompareKeysIsLexicographic(b, a);
      CompareEqual(a, b);
      CompareFlip(a, b);
    }
  }

  lemma KeysTransitive(integerKey: bool, a: Key, b: Key, c: Key)
    requires KeyOk(integerKey, a) && KeyOk(integerKey, b) && KeyOk(integerKey, c)
    requires CompareKeys(integerKey, a, b) != Greater && CompareKeys(integerKey, b, c) != Greater
    ensures CompareKeys(integerKey, a, c) != Greater
    ensures CompareKeys(integerKey, a, b) == Less || CompareKeys(integerKey, b, c) == Less
        ==> CompareKeys(integerKey, a, c) == Less
  {
    if !integerKey {
      CompareKeysIsLexicographic(a, b);
      CompareKeysIsLexicographic(b, c);
      CompareKeysIsLexicographic(a, c);
      CompareTransitive(a, b, c);
    }
  }

  // ----- positions in the sorted entries

  /** Number of entries with a key below `k`. */
  function CountBelow(integerKey: bool, es: seq<Entry>, k: Key): (n: nat)
    requires KeysOk(integerKey, es) && KeyOk(integerKey, k)
    ensures n <= |es|
    ensures n < |es| ==> CompareKeys(integerKey, es[n].0, k) != Less
    ensures n > 0 ==> CompareKeys(integerKey, es[n - 1].0, k) == Less
    ensures forall i :: 0 <= i < n ==> CompareKeys(integerKey, es[i].0, k) == Less
  {
    if es == [] || CompareKeys(integerKey, es[0].0, k) != Less then 0
    else
      assert forall i :: 0 <= i < |es[1..]| ==> es[1..][i] == es[i + 1];
      1 + CountBelow(integerKey, es[1..], k)
  }

  /** First position from `i` on with another key than `k`. */
  function Up(es: seq<Entry>, i: nat, k: Key): (n: nat)
    requires i <= |es|
    ensures i <= n <= |es|
    ensures forall j :: i <= j < n ==> es[j].0 == k
    ensures n < |es| ==> es[n].0 != k
    decreases |es| - i
  {
    if i < |es| && es[i].0 == k then Up(es, i + 1, k) else i
  }

  /** First position such that all entries up to `i` have key `k`. */
  function Down(es: seq<Entry>, i: nat, k: Key): (n: nat)
    requires i <= |es|
    ensures n <= i
    ensures forall j :: n <= j < i ==> es[j].0 == k
    ensures n > 0 ==> es[n - 1].0 != k
  {
    if i > 0 && es[i - 1].0 == k then Down(es, i - 1, k) else i
  }

  datatype Op = NextOp | NextNoDup | PrevOp | PrevNoDup

  /** Where an operation moves a cursor that is at `i`. */
  function Moved(es: seq<Entry>, i: nat, op: Op): (r: Option<nat>)
    requires i < |es|
    ensures r.Some? ==> r.value < |es|
  {
    match op
    case NextOp => if i + 1 < |es| then Some(i + 1) else None
    case NextNoDup => var n := Up(es, i, es[i].0); if n < |es| then Some(n) else None
    case PrevOp => if i > 0 then Some(i - 1) else None
    case PrevNoDup => var n := Down(es, i, es[i].0); if n > 0 then Some(n - 1) else None
  }

  /** The cursor of the database, by its contracts. */
  class Cursor {
    const integerKey: bool
    const entries: seq<Entry>
    var at: Option<nat>

    ghost predicate Valid()
      reads this
    {
      && KeysOk(integerKey, entries) && Sorted(integerKey, entries)
      && (at.Some? ==> at.value < |entries|)
    }

    constructor (integerKey: bool, entries: seq<Entry>)
      requires KeysOk(integerKey, entries) && Sorted(integerKey, entries)
      ensures Valid() && this.integerKey == integerKey && this.entries == entries
    {
      this.integerKey, this.entries, this.at := integerKey, entries, None;
    }

    function Current(): Option<Entry>
      reads this
      requires at.Some? ==> at.value < |entries|
    {
      if at.Some? then Some(entries[at.value]) else None
    }

    method MoveToGte(key: Key) returns (r: Option<Entry>)
      requires Valid() && KeyOk(integerKey, key)
      modifies this
      ensures Valid() && r == Current()
      ensures var n := CountBelow(integerKey, entries, key); at == if n < |entries| then Some(n) else None
    {
      var n := CountBelow(integerKey, entries, key);
      at := if n < |entries| then Some(n) else None;
      r := Current();
    }

    method MoveToLast() returns (r: Option<Entry>)
      requires Valid()
      modifies this
      ensures Valid() && r == Current()
      ensures at == if entries == [] then None else Some(|entries| - 1)
    {
      at := if entries == [] then None else Some(|entries| - 1);
      r := Current();
    }

    method MoveToLastDup() returns (r: Option<Entry>)
      requires Valid() && at.Some?
      modifies this
      ensures Valid() && r == Current()
      ensures at == Some(Up(entries, old(at.value), entries[old(at.value)].0) - 1)
    {
      at := Some(Up(entries, at.value, entries[at.value].0) - 1);
      r := Current();
    }

    method OpGet(op: Op) returns (r: Option<Entry>)
      requires Valid()
      modifies this
      ensures Valid() && r == Current()
      ensures at == if old(at).Some? then Moved(entries, old(at).value, op) else None
    {
      at := if at.Some? then Moved(entries, at.value, op) else None;
      r := Current();
    }
  }

  // ----- what iteration should yield

  function Filter(integerKey: bool, es: seq<Entry>, lower: Key, upper: Key): seq<Entry>
    requires KeysOk(integerKey, es) && KeyOk(integerKey, lower) && KeyOk(integerKey, upper)
  {
    if es == [] then []
    else
      var rest := Filter(integerKey, es[1..], lower, upper);
      if CompareKeys(integerKey, lower, es[0].0) != Greater && CompareKeys(integerKey, upper, es[0].0) != Less
      then [es[0]] + rest
      else rest
  }

  /** The first entry of every key. */
  function FirstOfKeys(es: seq<Entry>): seq<Entry> {
    if es == [] then []
    else
      var n := |es| - 1;
      FirstOfKeys(es[..n]) + if n > 0 && es[n - 1].0 == es[n].0 then [] else [es[n]]
  }

  /** The last entry of every key. */
  function LastOfKeys(es: seq<Entry>): seq<Entry> {
    if es == [] then []
    else (if |es| > 1 && es[1].0 == es[0].0 then [] else [es[0]]) + LastOfKeys(es[1..])
  }

  function Reverse(es: seq<Entry>): seq<Entry> {
    if es == [] then [] else Reverse(es[1..]) + [es[0]]
  }

  function Selected(es: seq<Entry>, ascending: bool, skipDuplicates: bool): seq<Entry> {
    if ascending then (if skipDuplicates then FirstOfKeys(es) else es)
    else Reverse(if skipDuplicates then LastOfKeys(es) else es)
  }

  function OpFor(ascending: bool, skipDuplicates: bool): Op {
    if ascending then (if skipDuplicates then NextNoDup else NextOp)
    else if skipDuplicates then PrevNoDup else PrevOp
  }

  /** The entries of the range are consecutive. */
  lemma {:induction false} FilterIsSlice(integerKey: bool, es: seq<Entry>, lower: Key, upper: Key, lo: nat, hi: nat)
    requires KeysOk(integerKey, es) && KeyOk(integerKey, lower) && KeyOk(integerKey, upper)
    requires lo <= hi <= |es|
    requires forall i :: 0 <= i < |es| ==>
               (lo <= i < hi <==>
                  CompareKeys(integerKey, lower, es[i].0) != Greater && CompareKeys(integerKey, upper, es[i].0) != Less)
    ensures Filter(integerKey, es, lower, upper) == es[lo..hi]
  {
    if es == [] {
    } else {
      var lo', hi' := if lo == 0 then 0 else lo - 1, if hi == 0 then 0 else hi - 1;
      assert forall i :: 0 <= i < |es| - 1 ==> es[1..][i] == es[i + 1];
      FilterIsSlice(integerKey, es[1..], lower, upper, lo', hi');
      if lo == 0 && hi > 0 {
        assert es[0..hi] == [es[0]] + es[1..][0..hi'];
      } else {
        assert es[lo..hi] == es[1..][lo'..hi'];
      }
    }
  }

  /** Visiting positions with `op` from `i` while they stay in `[lo, hi)`. */
  function Walk(es: seq<Entry>, lo: nat, hi: nat, i: Option<nat>, op: Op): seq<Entry>
    requires lo <= hi <= |es|
    decreases
      if i.None? then 0
      else if op.NextOp? || op.NextNoDup? then (if i.value < hi then hi - i.value else 0)
      else i.value + 1
  {
    if i.Some? && lo <= i.value < hi then
      [es[i.value]] + Walk(es, lo, hi, Moved(es, i.value, op), op)
    else []
  }

  lemma FirstStep(es: seq<Entry>, lo: nat, hi: nat, i: nat, op: Op)
    requires lo <= i < hi <= |es|
    ensures Walk(es, lo, hi, Some(i), op) == [es[i]] + Walk(es, lo, hi, Moved(es, i, op), op)
    ensures Walk(es, lo, hi, Some(i), op) != [] && Walk(es, lo, hi, Some(i), op)[0] == es[i]
  {
  }

  lemma MovesBack(es: seq<Entry>, i: nat)
    requires i < |es|
    ensures var n := Down(es, i, es[i].0);
            n <= i && Moved(es, i, PrevNoDup) == if n > 0 then Some(n - 1) else None
  {
  }

  lemma Associate(a: seq<Entry>, b: seq<Entry>, c: seq<Entry>)
    ensures (a + b) + c == a + (b + c)
  {
  }

  lemma {:induction false} WalkNext(es: seq<Entry>, lo: nat, hi: nat, i: nat)
    requires lo <= i <= hi <= |es|
    ensures Walk(es, lo, hi, Some(i), NextOp) == es[i..hi]
    decreases hi - i
  {
    if i < hi {
      if i + 1 < |es| { WalkNext(es, lo, hi, i + 1); }
      assert es[i..hi] == [es[i]] + es[i + 1..hi];
    }
  }

  lemma {:induction false} ReverseAppend(a: seq<Entry>, x: Entry)
    ensures Reverse(a + [x]) == [x] + Reverse(a)
  {
    if a == [] {
      assert a + [x] == [x] && [x][1..] == [];
    } else {
      assert (a + [x])[1..] == a[1..] + [x];
      ReverseAppend(a[1..], x);
    }
  }

  lemma {:induction false} WalkPrev(es: seq<Entry>, lo: nat, hi: nat, n: nat)
    requires lo <= n <= hi <= |es|
    ensures Walk(es, lo, hi, if n > 0 then Some(n - 1) else None, PrevOp) == Reverse(es[lo..n])
    decreases n
  {
    if lo < n {
      WalkPrev(es, lo, hi, n - 1);
      ReverseAppend(es[lo..n - 1], es[n - 1]);
      assert es[lo..n] == es[lo..n - 1] + [es[n - 1]];
    }
  }

  /** Dropping the rest of a key's entries does not change the first ones. */
  lemma {:induction false} FirstOfPrefix(es: seq<Entry>, lo: nat, m: nat, n: nat)
    requires lo < m <= n <= |es|
    requires forall j :: m <= j < n ==> es[j].0 == es[m - 1].0
    ensures FirstOfKeys(es[lo..n]) == FirstOfKeys(es[lo..m])
    decreases n
  {
    if m < n {
      FirstOfPrefix(es, lo, m, n - 1);
      assert es[lo..n][..n - 1 - lo] == es[lo..n - 1];
    }
  }

  lemma FirstOfKeysSnoc(es: seq<Entry>, lo: nat, i: nat)
    requires lo <= i < |es| && (lo < i ==> es[i].0 != es[i - 1].0)
    ensures FirstOfKeys(es[lo..i + 1]) == FirstOfKeys(es[lo..i]) + [es[i]]
  {
    assert es[lo..i + 1][..i - lo] == es[lo..i];
  }

  lemma LastOfKeysCons(es: seq<Entry>, n: nat, hi: nat)
    requires 0 < n <= hi <= |es| && (n < hi ==> es[n].0 != es[n - 1].0)
    ensures LastOfKeys(es[n - 1..hi]) == [es[n - 1]] + LastOfKeys(es[n..hi])
  {
    assert es[n - 1..hi][1..] == es[n..hi];
    assert n < hi ==> es[n - 1..hi][1] == es[n];
  }

  lemma {:induction false} WalkNextNoDup(es: seq<Entry>, lo: nat, hi: nat, i: nat)
    requires lo <= i < hi <= |es|
    requires lo < i ==> es[i].0 != es[i - 1].0
    ensures FirstOfKeys(es[lo..i]) + Walk(es, lo, hi, Some(i), NextNoDup) == FirstOfKeys(es[lo..hi])
    decreases hi - i
  {
    var n, next := Up(es, i, es[i].0), Moved(es, i, NextNoDup);
    FirstOfKeysSnoc(es, lo, i);
    FirstStep(es, lo, hi, i, NextNoDup);
    Associate(FirstOfKeys(es[lo..i]), [es[i]], Walk(es, lo, hi, next, NextNoDup));
    if n < hi {
      FirstOfPrefix(es, lo, i + 1, n);
      WalkNextNoDup(es, lo, hi, n);
    } else {
      FirstOfPrefix(es, lo, i + 1, hi);
      Outside(es, lo, hi, next, NextNoDup);
    }
  }

  lemma {:induction false} LastOfSuffix(es: seq<Entry>, m: nat, n: nat, hi: nat)
    requires m <= n < hi <= |es|
    requires forall j :: m <= j < n ==> es[j].0 == es[n].0
    ensures LastOfKeys(es[m..hi]) == LastOfKeys(es[n..hi])
    decreases n - m
  {
    if m < n {
      LastOfSuffix(es, m + 1, n, hi);
      assert es[m..hi][1..] == es[m + 1..hi];
      assert es[m..hi][1] == es[m + 1];
    }
  }

  lemma ReverseOne(x: Entry)
    ensures Reverse([x]) == [x]
  {
    ReverseAppend([], x);
  }

  lemma {:induction false} ReverseConcat(a: seq<Entry>, b: seq<Entry>)
    ensures Reverse(a + b) == Reverse(b) + Reverse(a)
  {
    if a == [] {
      assert a + b == b;
    } else {
      assert (a + b)[1..] == a[1..] + b;
      ReverseConcat(a[1..], b);
    }
  }

  /** One more key in front of the ones already visited backwards. */
  lemma ReverseLastCons(es: seq<Entry>, m: nat, n: nat, hi: nat)
    requires m < n <= hi <= |es| && (n < hi ==> es[n].0 != es[n - 1].0)
    requires forall j :: m <= j < n ==> es[j].0 == es[n - 1].0
    ensures Reverse(LastOfKeys(es[m..hi])) == Reverse(LastOfKeys(es[n..hi])) + [es[n - 1]]
  {
    LastOfSuffix(es, m, n - 1, hi);
    LastOfKeysCons(es, n, hi);
    ReverseConcat([es[n - 1]], LastOfKeys(es[n..hi]));
    ReverseOne(es[n - 1]);
  }

  lemma {:induction false} WalkPrevNoDup(es: seq<Entry>, lo: nat, hi: nat, n: nat)
    requires lo < n <= hi <= |es|
    requires n < hi ==> es[n].0 != es[n - 1].0
    ensures Reverse(LastOfKeys(es[n..hi])) + Walk(es, lo, hi, Some(n - 1), PrevNoDup) == Reverse(LastOfKeys(es[lo..hi]))
    decreases n
  {
    var m, next := Down(es, n - 1, es[n - 1].0), Moved(es, n - 1, PrevNoDup);
    OneKeyBack(es, lo, hi, n, if lo < m then m else lo);
    if lo < m {
      WalkPrevNoDup(es, lo, hi, m);
    } else {
      Outside(es, lo, hi, next, PrevNoDup);
    }
  }

  /** The entry visited for a key stands for all its entries from `m` on. */
  lemma OneKeyBack(es: seq<Entry>, lo: nat, hi: nat, n: nat, m: nat)
    requires lo <= m < n <= hi <= |es| && (n < hi ==> es[n].0 != es[n - 1].0)
    requires forall j :: m <= j < n ==> es[j].0 == es[n - 1].0
    ensures Reverse(LastOfKeys(es[n..hi])) + Walk(es, lo, hi, Some(n - 1), PrevNoDup)
         == Reverse(LastOfKeys(es[m..hi])) + Walk(es, lo, hi, Moved(es, n - 1, PrevNoDup), PrevNoDup)
  {
    ReverseLastCons(es, m, n, hi);
    FirstStep(es, lo, hi, n - 1, PrevNoDup);
    ShiftOne(Reverse(LastOfKeys(es[n..hi])), es[n - 1], Walk(es, lo, hi, Moved(es, n - 1, PrevNoDup), PrevNoDup),
             Reverse(LastOfKeys(es[m..hi])), Walk(es, lo, hi, Some(n - 1), PrevNoDup));
  }

  lemma ShiftOne(a: seq<Entry>, x: Entry, w: seq<Entry>, a': seq<Entry>, w': seq<Entry>)
    requires a' == a + [x] && w' == [x] + w
    ensures a + w' == a' + w
  {
  }

  lemma Outside(es: seq<Entry>, lo: nat, hi: nat, i: Option<nat>, op: Op)
    requires lo <= hi <= |es| && (i.Some? ==> i.value < lo || hi <= i.value)
    ensures Walk(es, lo, hi, i, op) == []
  {
  }

  /** Walking from the proper end yields the selection. */
  lemma WalkSelects(es: seq<Entry>, lo: nat, hi: nat, ascending: bool, skipDuplicates: bool)
    requires lo <= hi <= |es|
    ensures var start := if lo == hi then None else if ascending then Some(lo) else Some(hi - 1);
            Walk(es, lo, hi, start, OpFor(ascending, skipDuplicates)) == Selected(es[lo..hi], ascending, skipDuplicates)
  {
    if lo < hi {
      assert es[lo..lo] == [] && es[hi..hi] == [];
      match OpFor(ascending, skipDuplicates)
      case NextOp => WalkNext(es, lo, hi, lo);
      case NextNoDup => WalkNextNoDup(es, lo, hi, lo);
      case PrevOp => WalkPrev(es, lo, hi, hi);
      case PrevNoDup => WalkPrevNoDup(es, lo, hi, hi);
    }
  }

  // ----- the range of the two keys

  /** Number of entries with a key up to and including `k`. */
  function CountUpTo(integerKey: bool, es: seq<Entry>, k: Key): (n: nat)
    requires KeysOk(integerKey, es) && KeyOk(integerKey, k)
    ensures n <= |es|
    ensures n < |es| ==> CompareKeys(integerKey, es[n].0, k) == Greater
    ensures forall i :: 0 <= i < n ==> CompareKeys(integerKey, es[i].0, k) != Greater
  {
    if es == [] || CompareKeys(integerKey, es[0].0, k) == Greater then 0
    else
      assert forall i :: 0 <= i < |es[1..]| ==> es[1..][i] == es[i + 1];
      1 + CountUpTo(integerKey, es[1..], k)
  }

  /** Both counts split a sorted sequence. */
  lemma BelowSplit(integerKey: bool, es: seq<Entry>, k: Key, n: nat, i: nat)
    requires KeysOk(integerKey, es) && KeyOk(integerKey, k) && Sorted(integerKey, es)
    requires n == CountBelow(integerKey, es, k) <= i < |es|
    ensures CompareKeys(integerKey, es[i].0, k) != Less
  {
    if CompareKeys(integerKey, es[i].0, k) == Less && n < i {
      KeysTransitive(integerKey, es[n].0, es[i].0, k);
    }
  }

  lemma UpToSplit(integerKey: bool, es: seq<Entry>, k: Key, m: nat, i: nat)
    requires KeysOk(integerKey, es) && KeyOk(integerKey, k) && Sorted(integerKey, es)
    requires m == CountUpTo(integerKey, es, k) <= i < |es|
    ensures CompareKeys(integerKey, es[i].0, k) == Greater
  {
    if CompareKeys(integerKey, es[i].0, k) != Greater && m < i {
      KeysTransitive(integerKey, es[m].0, es[i].0, k);
    }
  }

  lemma CountsSplit(integerKey: bool, es: seq<Entry>, k: Key)
    requires KeysOk(integerKey, es) && KeyOk(integerKey, k) && Sorted(integerKey, es)
    ensures CountBelow(integerKey, es, k) <= CountUpTo(integerKey, es, k)
    ensures forall i :: 0 <= i < |es| ==>
              (i < CountBelow(integerKey, es, k) <==> CompareKeys(integerKey, es[i].0, k) == Less)
              && (i < CountUpTo(integerKey, es, k) <==> CompareKeys(integerKey, es[i].0, k) != Greater)
  {
    var n, m := CountBelow(integerKey, es, k), CountUpTo(integerKey, es, k);
    forall i | n <= i < |es| ensures CompareKeys(integerKey, es[i].0, k) != Less {
      BelowSplit(integerKey, es, k, n, i);
    }
    forall i | m <= i < |es| ensures CompareKeys(integerKey, es[i].0, k) == Greater {
      UpToSplit(integerKey, es, k, m, i);
    }
  }

  lemma WalkOfSlice(es: seq<Entry>, lo: nat, hi: nat, ascending: bool, skipDuplicates: bool, start: Option<nat>,
                    slice: seq<Entry>)
    requires lo <= hi <= |es| && slice == es[lo..hi]
    requires start == if lo == hi then None else if ascending then Some(lo) else Some(hi - 1)
    ensures Walk(es, lo, hi, start, OpFor(ascending, skipDuplicates)) == Selected(slice, ascending, skipDuplicates)
  {
    WalkSelects(es, lo, hi, ascending, skipDuplicates);
  }

  lemma LastOfSlice(es: seq<Entry>, lo: nat, hi: nat, skipDuplicates: bool, slice: seq<Entry>)
    requires lo < hi <= |es| && slice == es[lo..hi]
    ensures Selected(slice, false, skipDuplicates) != [] && Selected(slice, false, skipDuplicates)[0] == es[hi - 1]
  {
    WalkSelects(es, lo, hi, false, skipDuplicates);
    FirstStep(es, lo, hi, hi - 1, OpFor(false, skipDuplicates));
  }

  datatype Range = Range(integerKey: bool, es: seq<Entry>, lower: Key, upper: Key) {
    ghost predicate Valid() {
      && KeysOk(integerKey, es) && Sorted(integerKey, es)
      && KeyOk(integerKey, lower) && KeyOk(integerKey, upper)
      && CompareKeys(integerKey, lower, upper) != Greater
    }

    function Lo(): nat
      requires KeysOk(integerKey, es) && KeyOk(integerKey, lower)
    {
      CountBelow(integerKey, es, lower)
    }

    function Hi(): nat
      requires KeysOk(integerKey, es) && KeyOk(integerKey, upper)
    {
      CountUpTo(integerKey, es, upper)
    }

    function InRange(): seq<Entry>
      requires KeysOk(integerKey, es) && KeyOk(integerKey, lower) && KeyOk(integerKey, upper)
    {
      Filter(integerKey, es, lower, upper)
    }

    /** What the key tests of the iterator say about a position. */
    lemma BoundAt(i: nat)
      requires Valid() && i < |es|
      ensures i >= Lo() <==> CompareKeys(integerKey, lower, es[i].0) != Greater
      ensures i < Hi() <==> CompareKeys(integerKey, upper, es[i].0) != Less
      ensures CountBelow(integerKey, es, upper) <= i < Hi() <==> es[i].0 == upper
    {
      BoundAtLower(i);
      BoundAtUpper(i);
    }

    lemma BoundAtLower(i: nat)
      requires Valid() && i < |es|
      ensures i >= Lo() <==> CompareKeys(integerKey, lower, es[i].0) != Greater
    {
      CountsSplit(integerKey, es, lower);
      KeysEqual(integerKey, es[i].0, lower);
    }

    lemma AboveUpper(i: nat)
      requires Valid() && i < |es|
      ensures i < Hi() <==> CompareKeys(integerKey, upper, es[i].0) != Less
    {
      BoundAtUpper(i);
    }

    lemma BoundAtUpper(i: nat)
      requires Valid() && i < |es|
      ensures i < Hi() <==> CompareKeys(integerKey, upper, es[i].0) != Less
      ensures CountBelow(integerKey, es, upper) <= i < Hi() <==> es[i].0 == upper
    {
      CountsSplit(integerKey, es, upper);
      KeysEqual(integerKey, upper, es[i].0);
      KeysEqual(integerKey, es[i].0, upper);
    }

    lemma BoundsOrdered()
      requires Valid()
      ensures Lo() <= Hi() <= |es| && Lo() <= CountBelow(integerKey, es, upper) <= Hi()
    {
      CountsSplit(integerKey, es, upper);
      var n := CountBelow(integerKey, es, upper);
      if Lo() > n {
        KeysEqual(integerKey, es[n].0, upper);
        KeysTransitive(integerKey, upper, es[n].0, lower);
        KeysEqual(integerKey, lower, upper);
        KeysEqual(integerKey, upper, lower);
      }
    }

    /** The entries of the range are consecutive. */
    lemma RangeIsSlice()
      requires Valid()
      ensures Lo() <= Hi() <= |es| && InRange() == es[Lo()..Hi()]
    {
      BoundsOrdered();
      forall i | 0 <= i < |es|
        ensures Lo() <= i < Hi() <==>
                CompareKeys(integerKey, lower, es[i].0) != Greater && CompareKeys(integerKey, upper, es[i].0) != Less
      {
        BoundAt(i);
      }
      FilterIsSlice(integerKey, es, lower, upper, Lo(), Hi());
    }

    /** Entries with the upper key are consecutive and come last. */
    lemma UpperKey()
      requires Valid()
      ensures var g := CountBelow(integerKey, es, upper);
              && g <= Hi() <= |es|
              && (g < Hi() ==> Up(es, g, es[g].0) == Hi())
              && (g == Hi() < |es| ==>
                    var last := Up(es, g, es[g].0) - 1;
                    && g <= last < |es| && es[last].0 == es[g].0
                    && Down(es, last, es[last].0) == Down(es, g, es[g].0) == g)
    {
      BoundsOrdered();
      var g := CountBelow(integerKey, es, upper);
      if g < Hi() {
        UpperKeyThere(g);
      } else if g < |es| {
        UpperKeyMissing(g);
      }
    }

    lemma UpperKeyThere(g: nat)
      requires Valid() && g == CountBelow(integerKey, es, upper) < Hi() <= |es|
      ensures Up(es, g, es[g].0) == Hi()
    {
      forall i | g <= i <= Hi() && i < |es| ensures es[i].0 == upper <==> i < Hi() {
        BoundAt(i);
      }
    }

    lemma UpperKeyMissing(g: nat)
      requires Valid() && g == CountBelow(integerKey, es, upper) == Hi() < |es|
      ensures var last := Up(es, g, es[g].0) - 1;
              && g <= last < |es| && es[last].0 == es[g].0
              && Down(es, last, es[last].0) == Down(es, g, es[g].0) == g
    {
      if g > 0 {
        KeysEqual(integerKey, es[g - 1].0, upper);
        KeysEqual(integerKey, es[g].0, upper);
        assert es[g - 1].0 != es[g].0;
      }
      BothDown(es, g, Up(es, g, es[g].0));
    }

    /** The descending start without duplicates is the first entry of the upper key. */
    function Start(ascending: bool, duplicates: bool): Option<nat>
      requires KeysOk(integerKey, es) && KeyOk(integerKey, lower) && KeyOk(integerKey, upper)
    {
      if Lo() >= Hi() then None
      else if ascending then Some(Lo())
      else if duplicates || CountBelow(integerKey, es, upper) >= Hi() then Some(Hi() - 1)
      else Some(CountBelow(integerKey, es, upper))
    }

    function Yield(ascending: bool, duplicates: bool, skipDuplicates: bool): seq<Entry>
      requires KeysOk(integerKey, es) && KeyOk(integerKey, lower) && KeyOk(integerKey, upper)
      requires Lo() <= Hi() <= |es|
    {
      Walk(es, Lo(), Hi(), Start(ascending, duplicates), OpFor(ascending, skipDuplicates))
    }

    /** The flag says so, or the direction or the data make it irrelevant. */
    predicate DuplicatesDeclared(ascending: bool, duplicates: bool)
      requires KeysOk(integerKey, es) && KeyOk(integerKey, upper)
    {
      ascending || duplicates || Hi() <= CountBelow(integerKey, es, upper) + 1
    }

    lemma DeclaredStart(ascending: bool, duplicates: bool)
      requires Valid() && DuplicatesDeclared(ascending, duplicates)
      ensures Lo() <= Hi() <= |es|
      ensures Start(ascending, duplicates)
           == if Lo() == Hi() then None else if ascending then Some(Lo()) else Some(Hi() - 1)
    {
      BoundsOrdered();
    }

    /** Iteration that knows of the duplicates yields the entries of the range in the requested order. */
    lemma YieldsSelection(ascending: bool, duplicates: bool, skipDuplicates: bool)
      requires Valid() && DuplicatesDeclared(ascending, duplicates)
      ensures Lo() <= Hi() <= |es|
      ensures Yield(ascending, duplicates, skipDuplicates) == Selected(InRange(), ascending, skipDuplicates)
    {
      DeclaredStart(ascending, duplicates);
      RangeIsSlice();
      WalkOfSlice(es, Lo(), Hi(), ascending, skipDuplicates, Start(ascending, duplicates), InRange());
    }

    lemma UndeclaredYield(skipDuplicates: bool)
      requires Valid() && !DuplicatesDeclared(false, false)
      ensures Lo() <= Hi() <= |es|
      ensures var g := CountBelow(integerKey, es, upper);
              g < Hi() - 1 && Yield(false, false, skipDuplicates) != []
                  && Yield(false, false, skipDuplicates)[0] == es[g]
    {
      BoundsOrdered();
      FirstStep(es, Lo(), Hi(), CountBelow(integerKey, es, upper), OpFor(false, skipDuplicates));
    }

    lemma SelectionStart(skipDuplicates: bool)
      requires Valid() && Lo() < Hi()
      ensures Hi() <= |es|
      ensures Selected(InRange(), false, skipDuplicates) != []
          && Selected(InRange(), false, skipDuplicates)[0] == es[Hi() - 1]
    {
      RangeIsSlice();
      LastOfSlice(es, Lo(), Hi(), skipDuplicates, InRange());
    }

    /** How the position of the candidate entry relates to the position to start from. */
    ghost predicate Ready(ascending: bool, at: Option<nat>, start: Option<nat>)
      requires KeysOk(integerKey, es) && KeyOk(integerKey, lower) && KeyOk(integerKey, upper)
    {
      match at
      case None => start.None?
      case Some(pos) =>
        && pos < |es|
        && if pos < Hi() then start == at && Lo() <= pos
           else if ascending then start.None?
           else
             && Down(es, pos, es[pos].0) == Hi()
             && start == if Lo() < Hi() then Some(Hi() - 1) else None
    }

    /** Where the search for the first entry ends up, before it is checked against the far end. */
    ghost predicate Candidate(ascending: bool, duplicates: bool, at: Option<nat>)
      requires KeysOk(integerKey, es) && KeyOk(integerKey, lower) && KeyOk(integerKey, upper)
    {
      if ascending then
        at == if Lo() < |es| then Some(Lo()) else None
      else
        var g := CountBelow(integerKey, es, upper);
        if g < |es| then at == Some(if duplicates then Up(es, g, es[g].0) - 1 else g)
        else at == if Lo() < |es| then Some(|es| - 1) else None
    }

    lemma CandidateReady(ascending: bool, duplicates: bool, at: Option<nat>)
      requires Valid() && Candidate(ascending, duplicates, at)
      ensures Ready(ascending, at, Start(ascending, duplicates))
    {
      BoundsOrdered();
      UpperKey();
    }

    /**
     Iteration yields exactly the entries of the range in the requested order, or exactly one entry
     per key, if and only if it knows of the duplicates of the upper key when descending.
     */
    lemma YieldsExactly(ascending: bool, duplicates: bool, skipDuplicates: bool)
      requires Valid() && forall i, j :: 0 <= i < j < |es| ==> es[i] != es[j]
      ensures Lo() <= Hi() <= |es|
      ensures Yield(ascending, duplicates, skipDuplicates) == Selected(InRange(), ascending, skipDuplicates)
         <==> DuplicatesDeclared(ascending, duplicates)
    {
      if DuplicatesDeclared(ascending, duplicates) {
        YieldsSelection(ascending, duplicates, skipDuplicates);
      } else {
        BoundsOrdered();
        UndeclaredYield(skipDuplicates);
        SelectionStart(skipDuplicates);
        assert es[CountBelow(integerKey, es, upper)] != es[Hi() - 1];
      }
    }
  }

  /** Two entries under one key, descending: without the flag only the first one comes. */
  lemma UndeclaredExample()
    ensures var range := Range(false, [([1], [0]), ([1], [1])], [1], [1]);
            && range.Valid() && range.Lo() <= range.Hi() <= 2
            && range.Yield(false, false, false) != Selected(range.InRange(), false, false)
  {
    var range := Range(false, [([1], [0]), ([1], [1])], [1], [1]);
    KeysEqual(false, [1], [1]);
    assert range.es[0] != range.es[1];
    range.BoundAt(0);
    range.BoundAt(1);
    range.YieldsExactly(false, false, false);
  }

  lemma {:induction false} DownToStart(es: seq<Entry>, g: nat, i: nat)
    requires g <= i <= |es| && (g > 0 && i < |es| ==> es[g - 1].0 != es[i].0)
    requires i < |es| && forall j :: g <= j <= i ==> es[j].0 == es[i].0
    ensures Down(es, i, es[i].0) == g
  {
  }

  lemma BothDown(es: seq<Entry>, g: nat, n: nat)
    requires g < |es| && n == Up(es, g, es[g].0) && (g > 0 ==> es[g - 1].0 != es[g].0)
    ensures g < n <= |es| && es[n - 1].0 == es[g].0
    ensures Down(es, n - 1, es[n - 1].0) == Down(es, g, es[g].0) == g
  {
    DownToStart(es, g, n - 1);
    DownToStart(es, g, g);
  }

  /** Forward operations move up, backward operations move down. */
  lemma MovesOn(es: seq<Entry>, i: nat, op: Op)
    requires i < |es|
    ensures Moved(es, i, op).Some? ==>
              if op.NextOp? || op.NextNoDup? then Moved(es, i, op).value > i else Moved(es, i, op).value < i
  {
  }

  class RangeIterator {
    const cursor: Cursor
    const lowerKey: Key
    const upperKey: Key
    const ascending: bool
    const op: Op
    var next: Option<Entry>

    ghost function TheRange(): Range {
      Range(cursor.integerKey, cursor.entries, lowerKey, upperKey)
    }

    ghost predicate Valid()
      reads this, cursor
    {
      && cursor.Valid() && TheRange().Valid()
      && TheRange().Lo() <= TheRange().Hi() <= |cursor.entries|
      && (ascending <==> op.NextOp? || op.NextNoDup?)
      && (next.Some? ==>
            && cursor.at.Some? && TheRange().Lo() <= cursor.at.value < TheRange().Hi()
            && next == Some(cursor.entries[cursor.at.value]))
    }

    /** What is still to come. */
    ghost function Rest(): seq<Entry>
      reads this, cursor
      requires Valid()
    {
      if next.None? then [] else Walk(cursor.entries, TheRange().Lo(), TheRange().Hi(), cursor.at, op)
    }

    constructor (cursor: Cursor, startKey: Key, endKey: Key, duplicates: bool, skipDuplicates: bool)
      requires cursor.Valid() && KeyOk(cursor.integerKey, startKey) && KeyOk(cursor.integerKey, endKey)
      modifies cursor
      ensures Valid() && this.cursor == cursor && op == OpFor(ascending, skipDuplicates)
      ensures ascending <==> CompareKeys(cursor.integerKey, startKey, endKey) != Greater
      ensures TheRange() == Range(cursor.integerKey, cursor.entries,
                                  if ascending then startKey else endKey, if ascending then endKey else startKey)
      ensures Rest() == TheRange().Yield(ascending, duplicates, skipDuplicates)
    {
      var up := CompareKeys(cursor.integerKey, startKey, endKey) != Greater;
      this.cursor := cursor;
      ascending := up;
      lowerKey, upperKey := if up then startKey else endKey, if up then endKey else startKey;
      op := OpFor(up, skipDuplicates);
      next := None;
      new;
      KeysEqual(cursor.integerKey, endKey, startKey);
      KeysEqual(cursor.integerKey, startKey, endKey);
      TheRange().BoundsOrdered();
      MoveToFirst(duplicates);
    }

    method MoveToFirst(duplicates: bool)
      requires Valid() && next == None
      modifies this`next, cursor
      ensures Valid()
      ensures next.None? <==> TheRange().Start(ascending, duplicates).None?
      ensures next.Some? ==> cursor.at == TheRange().Start(ascending, duplicates)
    {
      var firstEntry := FirstEntry(duplicates);
      ghost var at := if firstEntry.Some? then cursor.at else None;
      TheRange().CandidateReady(ascending, duplicates, at);
      Settle(firstEntry, at, TheRange().Start(ascending, duplicates));
    }

    /** The entry to start from, before it is checked against the far end of the range. */
    method FirstEntry(duplicates: bool) returns (firstEntry: Option<Entry>)
      requires Valid() && next == None
      modifies cursor
      ensures cursor.Valid() && (firstEntry.Some? ==> firstEntry == cursor.Current())
      ensures TheRange().Candidate(ascending, duplicates, if firstEntry.Some? then cursor.at else None)
    {
      if !ascending {
        firstEntry := cursor.MoveToGte(upperKey);
        if firstEntry.Some? {
          if duplicates {
            firstEntry := cursor.MoveToLastDup();
          }
        } else {
          firstEntry := LastInDatabase();
        }
      } else {
        firstEntry := cursor.MoveToGte(lowerKey);
      }
    }

    /** Take the first entry, or the one before it, if it is in the range. */
    method Settle(firstEntry: Option<Entry>, ghost at: Option<nat>, ghost start: Option<nat>)
      requires Valid() && next == None
      requires firstEntry.Some? ==> firstEntry == cursor.Current()
      requires at == (if firstEntry.Some? then cursor.at else None) && TheRange().Ready(ascending, at, start)
      modifies this`next, cursor
      ensures Valid()
      ensures next.None? <==> start.None?
      ensures next.Some? ==> cursor.at == start
    {
      if firstEntry.Some? {
        TheRange().AboveUpper(cursor.at.value);
        if CompareKeys(cursor.integerKey, upperKey, firstEntry.value.0) == Less {
          if !ascending {
            MovesBack(cursor.entries, cursor.at.value);
            StepBack();
          }
        } else {
          next := firstEntry;
        }
      }
    }

    /** All keys are below the upper one: the last entry, unless it is below the lower one, too. */
    method LastInDatabase() returns (firstEntry: Option<Entry>)
      requires Valid() && next == None
      modifies cursor
      ensures cursor.Valid()
      ensures firstEntry.Some? <==> TheRange().Lo() < |cursor.entries|
      ensures firstEntry.Some? ==> firstEntry == cursor.Current() && cursor.at == Some(|cursor.entries| - 1)
    {
      firstEntry := cursor.MoveToLast();
      if firstEntry.Some? {
        TheRange().BoundAtLower(cursor.at.value);
        if CompareKeys(cursor.integerKey, lowerKey, firstEntry.value.0) == Greater {
          firstEntry := None;
        }
      }
    }

    /** The cursor is on the first key above the range: try the key before. */
    method StepBack()
      requires Valid() && next == None && cursor.at.Some?
      requires Moved(cursor.entries, cursor.at.value, PrevNoDup)
          == if TheRange().Hi() > 0 then Some(TheRange().Hi() - 1) else None
      modifies this`next, cursor
      ensures Valid()
      ensures if TheRange().Lo() < TheRange().Hi() then next.Some? && cursor.at == Some(TheRange().Hi() - 1)
              else next.None?
    {
      var prev := cursor.OpGet(PrevNoDup);
      if prev.Some? {
        TheRange().BoundAtLower(cursor.at.value);
        if CompareKeys(cursor.integerKey, lowerKey, prev.value.0) != Greater {
          next := prev;
        }
      }
    }

    /** Called again after the end, too; only up to the end is anything promised. */
    method FindNext()
      requires Valid()
      modifies this`next, cursor
      ensures old(next).Some? ==> Valid() && old(Rest()) == [old(next).value] + Rest()
    {
      if next.Some? {
        MovesOn(cursor.entries, cursor.at.value, op);
        FirstStep(cursor.entries, TheRange().Lo(), TheRange().Hi(), cursor.at.value, op);
      }
      var found := cursor.OpGet(op);
      next := None;
      if found.Some? {
        TheRange().BoundAt(cursor.at.value);
        var key := found.value.0;
        var abort := if ascending then CompareKeys(cursor.integerKey, upperKey, key) == Less
                     else CompareKeys(cursor.integerKey, lowerKey, key) == Greater;
        if !abort {
          next := found;
        }
      }
    }

    /** `Iterator::next`, up to the first None. */
    method Next() returns (value: Option<Entry>)
      requires Valid()
      modifies this`next, cursor
      ensures value.None? <==> old(Rest()) == []
      ensures value.Some? ==> Valid() && old(Rest()) == [value.value] + Rest()
    {
      value := next;
      FindNext();
    }
  }

  /** Draining an iterator, as `for` loops over it do. */
  method Drain(it: RangeIterator) returns (result: seq<Entry>)
    requires it.Valid()
    modifies it`next, it.cursor
    ensures result == old(it.Rest())
  {
    ghost var all, rest := it.Rest(), it.Rest();
    result := [];
    var entry := it.Next();
    while entry.Some?
      invariant all == result + rest && (entry.None? <==> rest == [])
      invariant entry.Some? ==> it.Valid() && rest == [entry.value] + it.Rest()
      decreases |rest|
    {
      rest := it.Rest();
      Associate(result, [entry.value], rest);
      result := result + [entry.value];
      entry := it.Next();
    }
  }

  /** A whole iteration between two keys. */
  method Collect(integerKey: bool, es: seq<Entry>, startKey: Key, endKey: Key, duplicates: bool, skipDuplicates: bool)
    returns (result: seq<Entry>)
    requires KeysOk(integerKey, es) && Sorted(integerKey, es) && KeyOk(integerKey, startKey)
        && KeyOk(integerKey, endKey)
    ensures var ascending := CompareKeys(integerKey, startKey, endKey) != Greater;
            var range := Range(integerKey, es, if ascending then startKey else endKey,
                               if ascending then endKey else startKey);
            && range.Lo() <= range.Hi() <= |es|
            && result == range.Yield(ascending, duplicates, skipDuplicates)
            && (range.DuplicatesDeclared(ascending, duplicates) ==>
                  result == Selected(range.InRange(), ascending, skipDuplicates))
  {
    var cursor := new Cursor(integerKey, es);
    var it := new RangeIterator(cursor, startKey, endKey, duplicates, skipDuplicates);
    ghost var range := it.TheRange();
    result := Drain(it);
    if range.DuplicatesDeclared(it.ascending, duplicates) {
      range.YieldsSelection(it.ascending, duplicates, skipDuplicates);
    }
  }
}
