/**
 Indexes in terms of the values alone: when two records are in conflict, when a null is taken for a
 string, and how keys are sorted.
 */
module IndexedValues {
  import opened Bytes
  import opened LittleEndian
  import opened Deserializer
  import opened KeyOrder
  import opened IndexKey
  import opened IndexKeyOrder
  import opened UniqueIndexes
  import opened IndexedObjects
  import opened ValueRoundTrip

  /** The types an index takes. */
  predicate IsIndexable(t: DataType) { t in {Bool, Byte, Int, Float, Long, Double, String} }

  /** The indexed columns hold values of their types. */
  predicate ColumnsTyped(props: seq<Property>, columns: seq<nat>, v: seq<Value>)
    requires Within(columns, props) && |v| == |props|
  {
    forall k :: 0 <= k < |columns| ==>
      IsIndexable(props[columns[k]].dataType) && Typed([], props[columns[k]], v[columns[k]])
  }

  // ----- one column

  /** Null first, then by value: false before true, numbers and reals by size, strings by bytes. */
  function CompareColumn(t: DataType, x: Value, y: Value): Ordering
    requires IsIndexable(t)
  {
    if x == Null || y == Null then (if x == y then Equal else if x == Null then Less else Greater)
    else if x.Boolean? && y.Boolean? then (if x.b == y.b then Equal else if y.b then Less else Greater)
    else if x.Number? && y.Number? then CompareInt(x.n, y.n)
    else if x.Real? && y.Real? then
      (if t == Float then CompareFloats(SINGLE, TWO31, x.bits, y.bits)
       else CompareFloats(DOUBLE, TWO63, x.bits, y.bits))
    else if x.Blob? && y.Blob? then CompareBytes(x.bytes, y.bytes)
    else Equal
  }

  lemma ColumnOrder(p: Property, x: Value, y: Value)
    requires IsIndexable(p.dataType) && Typed([], p, x) && Typed([], p, y)
    ensures SameKind(ComponentOf(p.dataType, x), ComponentOf(p.dataType, y))
    ensures CompareValues(ComponentOf(p.dataType, x), ComponentOf(p.dataType, y)) == CompareColumn(p.dataType, x, y)
  {
    SameTypeSameKind(p.dataType, x, y);
    ColumnNull(p, x);
    ColumnNull(p, y);
    if x != Null && y != Null { ValueOrder(p, x, y); }
  }

  lemma ValueOrder(p: Property, x: Value, y: Value)
    requires IsIndexable(p.dataType) && Typed([], p, x) && Typed([], p, y) && x != Null && y != Null
    requires SameKind(ComponentOf(p.dataType, x), ComponentOf(p.dataType, y))
    requires !ComponentOf(p.dataType, x).IsNull() && !ComponentOf(p.dataType, y).IsNull()
    ensures CompareValues(ComponentOf(p.dataType, x), ComponentOf(p.dataType, y)) == CompareColumn(p.dataType, x, y)
  {
    match p.dataType
    case Bool =>
    case Byte =>
    case Int =>
    case Long =>
    case Float =>
    case Double =>
    case _ =>
  }

  lemma ColumnNull(p: Property, x: Value)
    requires IsIndexable(p.dataType) && Typed([], p, x)
    ensures ComponentOf(p.dataType, x).IsNull() <==> x == Null
  {
  }

  lemma FloatsEqual(p: nat, s: nat, a: nat, b: nat)
    requires p > 0 && a < 2 * s && b < 2 * s
    ensures CompareFloats(p, s, a, b) == Equal <==> a == b
  {
    SignMagnitudeOrder(p, s, a, b);
  }

  /** Only equal values are not told apart. */
  lemma ColumnsEqual(p: Property, x: Value, y: Value)
    requires IsIndexable(p.dataType) && Typed([], p, x) && Typed([], p, y)
    ensures CompareColumn(p.dataType, x, y) == Equal <==> x == y
  {
    if x.Real? && y.Real? {
      if p.dataType == Float { FloatsEqual(SINGLE, TWO31, x.bits, y.bits); }
      else { FloatsEqual(DOUBLE, TWO63, x.bits, y.bits); }
    } else if x.Blob? && y.Blob? {
      CompareEqual(x.bytes, y.bytes);
    }
  }

  // ----- tuples

  lemma {:induction false} TuplesEqual(xs: seq<Component>, ys: seq<Component>)
    requires SameShape(xs, ys)
    ensures CompareTuples(xs, ys) == Equal <==> forall i :: 0 <= i < |xs| ==> CompareValues(xs[i], ys[i]) == Equal
  {
    if xs == [] {
    } else {
      TuplesEqual(xs[..|xs| - 1], ys[..|xs| - 1]);
    }
  }

  /** The first difference decides. */
  lemma {:induction false} FirstDifference(xs: seq<Component>, ys: seq<Component>, j: nat)
    requires SameShape(xs, ys) && j < |xs|
    requires forall i :: 0 <= i < j ==> CompareValues(xs[i], ys[i]) == Equal
    requires CompareValues(xs[j], ys[j]) != Equal
    ensures CompareTuples(xs, ys) == CompareValues(xs[j], ys[j])
  {
    var n := |xs| - 1;
    if j == n {
      TuplesEqual(xs[..n], ys[..n]);
    } else {
      FirstDifference(xs[..n], ys[..n], j);
    }
  }

  lemma ComponentsCompare(props: seq<Property>, columns: seq<nat>, v: seq<Value>, w: seq<Value>, k: nat)
    requires Within(columns, props) && |v| == |w| == |props| && k < |columns|
    requires ColumnsTyped(props, columns, v) && ColumnsTyped(props, columns, w)
    ensures var x, y := Components(props, columns, v)[k], Components(props, columns, w)[k];
            && SameKind(x, y) && (x.IsNull() <==> v[columns[k]] == Null)
            && CompareValues(x, y) == CompareColumn(props[columns[k]].dataType, v[columns[k]], w[columns[k]])
            && (CompareValues(x, y) == Equal <==> v[columns[k]] == w[columns[k]])
  {
    var p := props[columns[k]];
    ColumnOrder(p, v[columns[k]], w[columns[k]]);
    ColumnNull(p, v[columns[k]]);
    ColumnsEqual(p, v[columns[k]], w[columns[k]]);
  }

  /** The first `n` columns hold the same values. */
  predicate EqualUpTo(columns: seq<nat>, v: seq<Value>, w: seq<Value>, n: nat)
    requires n <= |columns| && |v| == |w| && forall k :: 0 <= k < |columns| ==> columns[k] < |v|
  {
    forall k :: 0 <= k < n ==> v[columns[k]] == w[columns[k]]
  }

  lemma TuplesFollow(props: seq<Property>, columns: seq<nat>, v: seq<Value>, w: seq<Value>, n: nat)
    requires Within(columns, props) && |v| == |w| == |props| && n <= |columns|
    requires ColumnsTyped(props, columns, v) && ColumnsTyped(props, columns, w)
    ensures var xs, ys := Components(props, columns, v)[..n], Components(props, columns, w)[..n];
            SameShape(xs, ys) && (CompareTuples(xs, ys) == Equal <==> EqualUpTo(columns, v, w, n))
  {
    var xs, ys := Components(props, columns, v)[..n], Components(props, columns, w)[..n];
    forall k | 0 <= k < n
      ensures SameKind(xs[k], ys[k]) && (CompareValues(xs[k], ys[k]) == Equal <==> v[columns[k]] == w[columns[k]])
    {
      ComponentsCompare(props, columns, v, w, k);
    }
    TuplesEqual(xs, ys);
  }

  lemma NullsFollow(props: seq<Property>, columns: seq<nat>, v: seq<Value>)
    requires Within(columns, props) && |v| == |props| && ColumnsTyped(props, columns, v)
    ensures HasNull(Components(props, columns, v)) <==> exists k :: 0 <= k < |columns| && v[columns[k]] == Null
  {
    var xs := Components(props, columns, v);
    forall k | 0 <= k < |columns| ensures xs[k].IsNull() <==> v[columns[k]] == Null {
      ColumnNull(props[columns[k]], v[columns[k]]);
    }
    if k :| 0 <= k < |columns| && v[columns[k]] == Null { assert xs[k].IsNull(); }
  }

  // ----- conflicts

  predicate EmptyAgainstOne(x: Value, y: Value) {
    (x == Blob([]) && y == Blob([1])) || (x == Blob([1]) && y == Blob([]))
  }

  /** No null, and equal values in every column, up to the empty string and U+0001 in the last one. */
  ghost predicate SameValues(columns: seq<nat>, v: seq<Value>, w: seq<Value>)
    requires |v| == |w| && forall k :: 0 <= k < |columns| ==> columns[k] < |v|
  {
    && (forall k :: 0 <= k < |columns| ==> v[columns[k]] != Null && w[columns[k]] != Null)
    && forall k :: 0 <= k < |columns| ==>
         || v[columns[k]] == w[columns[k]]
         || (k == |columns| - 1 && EmptyAgainstOne(v[columns[k]], w[columns[k]]))
  }

  /** Equal in every column, or up to the last one, where the empty string stands against U+0001. */
  predicate EqualButLast(columns: seq<nat>, v: seq<Value>, w: seq<Value>)
    requires |v| == |w| && forall k :: 0 <= k < |columns| ==> columns[k] < |v|
  {
    var n := |columns|;
    || EqualUpTo(columns, v, w, n)
    || (n > 0 && EqualUpTo(columns, v, w, n - 1) && EmptyAgainstOne(v[columns[n - 1]], w[columns[n - 1]]))
  }

  predicate NoNull(columns: seq<nat>, v: seq<Value>)
    requires forall k :: 0 <= k < |columns| ==> columns[k] < |v|
  {
    forall k :: 0 <= k < |columns| ==> v[columns[k]] != Null
  }

  lemma SameValuesIs(columns: seq<nat>, v: seq<Value>, w: seq<Value>)
    requires |v| == |w| && forall k :: 0 <= k < |columns| ==> columns[k] < |v|
    ensures SameValues(columns, v, w) <==> NoNull(columns, v) && NoNull(columns, w) && EqualButLast(columns, v, w)
  {
  }

  lemma IndistinctExactly(props: seq<Property>, columns: seq<nat>, v: seq<Value>, w: seq<Value>)
    requires Within(columns, props) && |v| == |w| == |props| && NoNull(columns, v) && NoNull(columns, w)
    requires ColumnsTyped(props, columns, v) && ColumnsTyped(props, columns, w)
    ensures var xs, ys := Components(props, columns, v), Components(props, columns, w);
            SameShape(xs, ys) && (Indistinct(xs, ys) <==> EqualButLast(columns, v, w))
  {
    var xs, ys, n := Components(props, columns, v), Components(props, columns, w), |columns|;
    TuplesFollow(props, columns, v, w, n);
    assert xs[..n] == xs && ys[..n] == ys;
    if n > 0 {
      TuplesFollow(props, columns, v, w, n - 1);
      LastAlias(props[columns[n - 1]], v[columns[n - 1]], w[columns[n - 1]]);
      IndistinctParts(xs, ys, EqualUpTo(columns, v, w, n), EqualUpTo(columns, v, w, n - 1),
                      EmptyAgainstOne(v[columns[n - 1]], w[columns[n - 1]]));
    }
  }

  lemma IndistinctParts(xs: seq<Component>, ys: seq<Component>, all: bool, front: bool, last: bool)
    requires SameShape(xs, ys) && xs != [] && SameShape(xs[..|xs| - 1], ys[..|xs| - 1])
    requires CompareTuples(xs, ys) == Equal <==> all
    requires CompareTuples(xs[..|xs| - 1], ys[..|xs| - 1]) == Equal <==> front
    requires var a, b := xs[|xs| - 1], ys[|xs| - 1]; a.StringKey? && b.StringKey? && Alias(a.text, b.text) <==> last
    ensures Indistinct(xs, ys) <==> all || (front && last)
  {
    assert SameKind(xs[|xs| - 1], ys[|xs| - 1]);
  }

  lemma SameEntryExactly(props: seq<Property>, columns: seq<nat>, v: seq<Value>, w: seq<Value>)
    requires Within(columns, props) && |v| == |w| == |props|
    requires ColumnsTyped(props, columns, v) && ColumnsTyped(props, columns, w)
    ensures SameEntry(props, columns, v, w) <==> SameValues(columns, v, w)
  {
    NullsFollow(props, columns, v);
    NullsFollow(props, columns, w);
    SameValuesIs(columns, v, w);
    if NoNull(columns, v) && NoNull(columns, w) { IndistinctExactly(props, columns, v, w); }
  }

  lemma LastAlias(p: Property, x: Value, y: Value)
    requires IsIndexable(p.dataType) && Typed([], p, x) && Typed([], p, y) && x != Null && y != Null
    ensures var a, b := ComponentOf(p.dataType, x), ComponentOf(p.dataType, y);
            a.StringKey? && b.StringKey? && Alias(a.text, b.text) <==> EmptyAgainstOne(x, y)
  {
  }

  /** Two records are in conflict in a unique index exactly when they hold the same values in its columns. */
  lemma ConflictOnValues(props: seq<Property>, spec: IndexSpec, xxh3: seq<byte> -> u64, v: seq<Value>, w: seq<Value>)
    requires Within(spec.columns, props) && |v| == |w| == |props| && StringColumnLast(props, spec.columns)
    requires ColumnsTyped(props, spec.columns, v) && ColumnsTyped(props, spec.columns, w)
    requires !Collides(ValueIndexOn(props, spec, xxh3), v, w)
    ensures ConflictAt(ValueIndexOn(props, spec, xxh3), v, w) <==> spec.unique && SameValues(spec.columns, v, w)
  {
    ConflictExactly(props, spec, xxh3, v, w);
    SameEntryExactly(props, spec.columns, v, w);
  }

  /** `v` has null in the last column where `w` has U+0000, after equal values without nulls. */
  ghost predicate NullForNul(columns: seq<nat>, v: seq<Value>, w: seq<Value>)
    requires |v| == |w| && forall k :: 0 <= k < |columns| ==> columns[k] < |v|
  {
    var n := |columns|;
    && n > 0 && v[columns[n - 1]] == Null && w[columns[n - 1]] == Blob([0])
    && (forall k :: 0 <= k < n ==> w[columns[k]] != Null)
    && EqualUpTo(columns, v, w, n - 1)
  }

  lemma NullForNulExactly(props: seq<Property>, columns: seq<nat>, v: seq<Value>, w: seq<Value>)
    requires Within(columns, props) && |v| == |w| == |props|
    requires ColumnsTyped(props, columns, v) && ColumnsTyped(props, columns, w)
    ensures NullAgainstNul(props, columns, v, w) <==> NullForNul(columns, v, w)
  {
    NullsFollow(props, columns, w);
    if |columns| > 0 {
      TuplesFollow(props, columns, w, v, |columns| - 1);
      LastIsString(props[columns[|columns| - 1]], v[columns[|columns| - 1]], w[columns[|columns| - 1]]);
    }
  }

  lemma LastIsString(p: Property, x: Value, y: Value)
    requires IsIndexable(p.dataType) && Typed([], p, x) && Typed([], p, y)
    ensures ComponentOf(p.dataType, x) == StringKey(None) && ComponentOf(p.dataType, y) == StringKey(Some([0]))
       <==> x == Null && y == Blob([0])
  {
  }

  /** A null and a null-free record share a key of a unique index exactly for null against U+0000. */
  lemma CoincideOnValues(props: seq<Property>, spec: IndexSpec, xxh3: seq<byte> -> u64, v: seq<Value>, w: seq<Value>)
    requires Within(spec.columns, props) && |v| == |w| == |props| && StringColumnLast(props, spec.columns)
    requires ColumnsTyped(props, spec.columns, v) && ColumnsTyped(props, spec.columns, w)
    requires !Collides(ValueIndexOn(props, spec, xxh3), v, w)
    ensures CoincideAt(ValueIndexOn(props, spec, xxh3), v, w) <==> spec.unique && NullForNul(spec.columns, v, w)
  {
    CoincideExactly(props, spec, xxh3, v, w);
    NullForNulExactly(props, spec.columns, v, w);
  }

  /** The condition of `HarmlessExactly` for two records, on their values. */
  lemma HarmlessOnValues(props: seq<Property>, specs: seq<IndexSpec>, v: seq<Value>, w: seq<Value>)
    requires AllWithin(specs, props) && |v| == |w| == |props|
    requires forall i :: 0 <= i < |specs| ==>
               ColumnsTyped(props, specs[i].columns, v) && ColumnsTyped(props, specs[i].columns, w)
    ensures HarmlessValues(props, specs, v, w)
       <==> ((exists i :: 0 <= i < |specs| && specs[i].unique && NullForNul(specs[i].columns, v, w)) ==>
             (exists i :: 0 <= i < |specs| && specs[i].unique && SameValues(specs[i].columns, v, w)))
  {
    forall i | 0 <= i < |specs|
      ensures NullAgainstNul(props, specs[i].columns, v, w) <==> NullForNul(specs[i].columns, v, w)
      ensures SameEntry(props, specs[i].columns, v, w) <==> SameValues(specs[i].columns, v, w)
    {
      NullForNulExactly(props, specs[i].columns, v, w);
      SameEntryExactly(props, specs[i].columns, v, w);
    }
  }

  // ----- order

  /** Strings whose keys are sorted wrongly or not told apart. */
  predicate ValuesClash(x: Value, y: Value) {
    || (x == Null && y == Blob([0]))
    || (y == Null && x == Blob([0]))
    || (x == Blob([]) && y.Blob? && y.bytes != [] && (y.bytes[0] == 0 || y.bytes == [1]))
    || (y == Blob([]) && x.Blob? && x.bytes != [] && (x.bytes[0] == 0 || x.bytes == [1]))
  }

  lemma ClashExactly(p: Property, x: Value, y: Value)
    requires IsIndexable(p.dataType) && Typed([], p, x) && Typed([], p, y)
    ensures var a, b := ComponentOf(p.dataType, x), ComponentOf(p.dataType, y);
            a.StringKey? && b.StringKey? && Clash(a.text, b.text) <==> ValuesClash(x, y)
  {
  }

  /**
   The keys of two records are sorted like the values in the first column where they differ, except
   exactly for clashing strings in the last column.
   */
  lemma KeysOrderedByValues(props: seq<Property>, columns: seq<nat>, v: seq<Value>, w: seq<Value>, j: nat)
    requires Within(columns, props) && |v| == |w| == |props| && StringColumnLast(props, columns)
    requires ColumnsTyped(props, columns, v) && ColumnsTyped(props, columns, w)
    requires j < |columns| && EqualUpTo(columns, v, w, j) && v[columns[j]] != w[columns[j]]
    ensures CompareBytes(AllBytes(Components(props, columns, v)), AllBytes(Components(props, columns, w)))
            == CompareColumn(props[columns[j]].dataType, v[columns[j]], w[columns[j]])
       <==> !(j == |columns| - 1 && ValuesClash(v[columns[j]], w[columns[j]]))
  {
    var xs, ys := Components(props, columns, v), Components(props, columns, w);
    ShapesAgree(props, columns, v, w);
    FirstDecides(props, columns, v, w, j);
    StringsLast(props, columns, v);
    KeyOrderExact(xs, ys);
    TuplesClashExactly(props, columns, v, w, j);
  }

  lemma FirstDecides(props: seq<Property>, columns: seq<nat>, v: seq<Value>, w: seq<Value>, j: nat)
    requires Within(columns, props) && |v| == |w| == |props|
    requires ColumnsTyped(props, columns, v) && ColumnsTyped(props, columns, w)
    requires j < |columns| && EqualUpTo(columns, v, w, j) && v[columns[j]] != w[columns[j]]
    ensures var xs, ys := Components(props, columns, v), Components(props, columns, w);
            && SameShape(xs, ys)
            && CompareTuples(xs, ys) == CompareColumn(props[columns[j]].dataType, v[columns[j]], w[columns[j]])
  {
    var xs, ys := Components(props, columns, v), Components(props, columns, w);
    ShapesAgree(props, columns, v, w);
    forall k | 0 <= k < j ensures CompareValues(xs[k], ys[k]) == Equal {
      ComponentsCompare(props, columns, v, w, k);
    }
    ComponentsCompare(props, columns, v, w, j);
    FirstDifference(xs, ys, j);
  }

  lemma TuplesClashExactly(props: seq<Property>, columns: seq<nat>, v: seq<Value>, w: seq<Value>, j: nat)
    requires Within(columns, props) && |v| == |w| == |props|
    requires ColumnsTyped(props, columns, v) && ColumnsTyped(props, columns, w)
    requires SameShape(Components(props, columns, v), Components(props, columns, w))
    requires j < |columns| && EqualUpTo(columns, v, w, j) && v[columns[j]] != w[columns[j]]
    ensures TuplesClash(Components(props, columns, v), Components(props, columns, w))
       <==> j == |columns| - 1 && ValuesClash(v[columns[j]], w[columns[j]])
  {
    var n := |columns|;
    TuplesFollow(props, columns, v, w, n - 1);
    ClashExactly(props[columns[n - 1]], v[columns[n - 1]], w[columns[n - 1]]);
  }

  lemma StringsLast(props: seq<Property>, columns: seq<nat>, v: seq<Value>)
    requires Within(columns, props) && |v| == |props| && StringColumnLast(props, columns)
    ensures StringLast(Components(props, columns, v))
  {
  }
}
