/**
 `NativeCollection::update`: reopen the stored bytes with the collection's static size and apply
 property updates in place. Strings that fit are overwritten, longer ones are appended.
 */
module ObjectUpdate {
  import opened Bytes
  import opened LittleEndian
  import opened Deserializer
  import opened Layout
  import opened ObjectTree
  import opened Serializer

  /** `IsarValue`; a real carries its double pattern and the single pattern it rounds to. */
  datatype IsarValue =
    | BoolValue(b: bool)
    | IntegerValue(n: i64)
    | RealValue(double: u64, single: u32)
    | StringValue(text: seq<byte>)

  /** `(property_index, value)`; indexes count from one. */
  type Change = (nat, Option<IsarValue>)

  datatype Result<+T> = Success(value: T) | IllegalArgument

  /** `value as i32`: the low 32 bits. */
  function Truncate32(n: i64): i32 { (n + TWO31) % TWO32 - TWO31 }

  /** The writer call an update amounts to; None for a mismatched type. */
  function CallFor(t: DataType, v: Option<IsarValue>): Option<Tree> {
    match v
    case None => Some(WNull)
    case Some(BoolValue(b)) => if t == Bool then Some(WBool(b)) else None
    case Some(IntegerValue(n)) =>
      if t == Byte then Some(WByte(n % 0x100))
      else if t == Int then Some(WInt(Truncate32(n)))
      else if t == Long then Some(WLong(n))
      else None
    case Some(RealValue(double, single)) =>
      if t == Float then Some(WFloat(single)) else if t == Double then Some(WDouble(double)) else None
    case Some(StringValue(text)) => if t == String || t == Json then Some(WString(text)) else None
  }

  /** Which values a property takes. */
  predicate Takes(t: DataType, v: IsarValue) {
    || (v.BoolValue? && t == Bool)
    || (v.IntegerValue? && t in {Byte, Int, Long})
    || (v.RealValue? && t in {Float, Double})
    || (v.StringValue? && t in {String, Json})
  }

  predicate Legal(props: seq<Property>, u: Change) {
    1 <= u.0 <= |props| && (u.1.Some? ==> Takes(props[u.0 - 1].dataType, u.1.value))
  }

  predicate AllLegal(props: seq<Property>, us: seq<Change>) {
    forall k :: 0 <= k < |us| ==> Legal(props, us[k])
  }

  /** Position of the updated property, and the call for it. */
  function At(props: seq<Property>, u: Change): (i: nat)
    requires Legal(props, u)
    ensures i < |props|
  {
    u.0 - 1
  }

  function TreeFor(props: seq<Property>, u: Change): (t: Tree)
    requires Legal(props, u)
    ensures t.WString? ==> u.1 == Some(StringValue(t.text)) && props[At(props, u)].dataType in {String, Json}
    ensures !t.WList? && !t.WObject? && !t.WByteList?
  {
    CallFor(props[At(props, u)].dataType, u.1).value
  }

  /** The buffer after one legal update. */
  function Updated(props: seq<Property>, u: Change, b: seq<byte>): (r: seq<byte>)
    requires Legal(props, u) && 3 + props[At(props, u)].End() <= |b|
    ensures |r| >= |b|
  {
    var p, t := props[At(props, u)], TreeFor(props, u);
    if t.WString? then Replaced(b, p.offset, t.text) else StoreLeaf(p, t, b)
  }

  function UpdatedAll(props: seq<Property>, us: seq<Change>, b: seq<byte>): (r: seq<byte>)
    requires Fits(props, b) && AllLegal(props, us)
    ensures |r| >= |b|
  {
    if us == [] then b else UpdatedAll(props, us[1..], Updated(props, us[0], b))
  }

  function NewValue(props: seq<Property>, u: Change): Value
    requires Legal(props, u)
  {
    ExpectLeaf(props[At(props, u)], TreeFor(props, u), Null)
  }

  /** The values after the updates: exactly the listed properties, the last update of each one. */
  function NewValues(props: seq<Property>, us: seq<Change>, vals: seq<Value>): (r: seq<Value>)
    requires |vals| == |props| && AllLegal(props, us)
    ensures |r| == |props|
  {
    if us == [] then vals
    else NewValues(props, us[1..], vals[At(props, us[0]) := NewValue(props, us[0])])
  }

  /** Which changes are legal, and what the new value is, type by type: null, a boolean or a string. */
  lemma NewPlainValue(props: seq<Property>, u: Change)
    requires 1 <= u.0 <= |props|
    ensures var t := props[u.0 - 1].dataType;
            && (u.1 == None ==> Legal(props, u) && NewValue(props, u) == if t == Byte then Number(0) else Null)
            && (forall b :: u.1 == Some(BoolValue(b)) ==>
                  (Legal(props, u) <==> t == Bool) && (t == Bool ==> NewValue(props, u) == Boolean(b)))
            && (forall text :: u.1 == Some(StringValue(text)) ==>
                  (Legal(props, u) <==> t == String || t == Json)
                  && (t == String || t == Json ==> NewValue(props, u) == Blob(text)))
  {
  }

  /** An integer: cut to the width of the property, where the most negative number stands for null. */
  lemma NewInteger(props: seq<Property>, u: Change, n: i64, m: i32)
    requires 1 <= u.0 <= |props| && u.1 == Some(IntegerValue(n))
    ensures var t := props[u.0 - 1].dataType;
            && (Legal(props, u) <==> t == Byte || t == Int || t == Long)
            && (t == Byte ==> NewValue(props, u) == Number(n % 0x100))
            && (t == Int && (n - m) % 0x1_0000_0000 == 0 ==>
                  NewValue(props, u) == if m == -0x8000_0000 then Null else Number(m))
            && (t == Long ==> NewValue(props, u) == if n == -0x8000_0000_0000_0000 then Null else Number(n))
  {
    if (n - m) % 0x1_0000_0000 == 0 { LowBits(n, m, (n - m) / 0x1_0000_0000); }
  }

  lemma LowBits(n: i64, m: i32, k: int)
    requires n == m + 0x1_0000_0000 * k
    ensures Truncate32(n) == m
  {
  }

  /** A text no longer than the stored one stays in its place; a longer one, or one for null, is appended. */
  lemma ReplacedSize(cols: seq<Collection>, props: seq<Property>, size: nat, b: seq<byte>, ext: seq<Extent>,
                     vals: seq<Value>, i: nat, text: seq<byte>)
    requires Laid(cols, props, size, b, ext, vals) && i < |props| && props[i].dataType in {String, Json}
    ensures 3 + props[i].offset + 3 <= |b|
    ensures |Replaced(b, props[i].offset, text)|
         == if vals[i].Blob? && |text| <= |vals[i].bytes| then |b| else |b| + 3 + |text|
  {
    BlobInside(cols, props, size, b, ext, vals, i);
    BlobLength(cols, props, size, b, ext, vals, i);
    ReplacedCases(b, props[i].offset, text);
  }

  lemma BlobLength(cols: seq<Collection>, props: seq<Property>, size: nat, b: seq<byte>, ext: seq<Extent>,
                   vals: seq<Value>, i: nat)
    requires Laid(cols, props, size, b, ext, vals) && i < |props| && props[i].dataType in {String, Json}
    requires 3 + props[i].offset + 3 <= |b| && BlockInside(b, props[i].offset)
    ensures var at := BlockAt(b, props[i].offset);
            if at == 0 then !vals[i].Blob?
            else vals[i].Blob? && 6 + at <= |b| && |vals[i].bytes| == FromLe(b[3 + at..6 + at])
  {
    var at := BlockAt(b, props[i].offset);
    assert b[3 + props[i].offset..6 + props[i].offset] == SlotBytes(b, props[i]);
    if at != 0 {
      var block := b[ext[i].lo..ext[i].hi];
      assert block + [] == block;
      assert ReadBlock(cols, props[i], block + []) == Ok(vals[i]);
      assert block[..3] == b[3 + at..6 + at];
    }
  }

  /** A real: the pattern in the width of the property, NaN for null. */
  lemma NewReal(props: seq<Property>, u: Change, double: u64, single: u32)
    requires 1 <= u.0 <= |props| && u.1 == Some(RealValue(double, single))
    ensures var t := props[u.0 - 1].dataType;
            && (Legal(props, u) <==> t == Float || t == Double)
            && (t == Float ==>
                  NewValue(props, u) == if single % 0x8000_0000 > 0x7F80_0000 then Null else Real(single))
            && (t == Double ==>
                  NewValue(props, u)
                  == if double % 0x8000_0000_0000_0000 > 0x7FF0_0000_0000_0000 then Null else Real(double))
  {
  }

  /** Properties that are not listed keep their value. */
  lemma {:induction false} Unlisted(props: seq<Property>, us: seq<Change>, vals: seq<Value>, i: nat)
    requires |vals| == |props| && AllLegal(props, us)
    requires i < |props| && forall k :: 0 <= k < |us| ==> us[k].0 != i + 1
    ensures NewValues(props, us, vals)[i] == vals[i]
  {
    if us == [] {
    } else {
      Unlisted(props, us[1..], vals[At(props, us[0]) := NewValue(props, us[0])], i);
    }
  }

  /** A listed property has the value of its last update. */
  lemma {:induction false} Listed(props: seq<Property>, us: seq<Change>, vals: seq<Value>, k: nat)
    requires |vals| == |props| && AllLegal(props, us)
    requires k < |us| && forall j :: k < j < |us| ==> us[j].0 != us[k].0
    ensures NewValues(props, us, vals)[At(props, us[k])] == NewValue(props, us[k])
  {
    var next := vals[At(props, us[0]) := NewValue(props, us[0])];
    if k == 0 {
      Unlisted(props, us[1..], next, At(props, us[0]));
    } else {
      Listed(props, us[1..], next, k - 1);
    }
  }

  /** The block of a laid out string property lies inside its extent, whole. */
  lemma BlobInside(cols: seq<Collection>, props: seq<Property>, size: nat, b: seq<byte>,
                   ext: seq<Extent>, vals: seq<Value>, i: nat)
    requires Laid(cols, props, size, b, ext, vals) && i < |props|
    requires props[i].dataType in {String, Json}
    ensures 3 + props[i].offset + 3 <= |b| && BlockInside(b, props[i].offset)
    ensures var at := BlockAt(b, props[i].offset);
            at != 0 ==> ext[i].lo == 3 + at && 6 + at + FromLe(b[3 + at..6 + at]) <= ext[i].hi
  {
    var at := BlockAt(b, props[i].offset);
    assert b[3 + props[i].offset..6 + props[i].offset] == SlotBytes(b, props[i]);
    if at != 0 {
      var block := b[ext[i].lo..ext[i].hi];
      assert block + [] == block;
      assert ReadBlock(cols, props[i], block + []) == Ok(vals[i]);
      assert block[..3] == b[3 + at..6 + at];
    }
  }

  /** Overwriting or replacing a string keeps the layout. */
  lemma ReplacedLaid(cols: seq<Collection>, props: seq<Property>, size: nat, b: seq<byte>,
                     ext: seq<Extent>, vals: seq<Value>, i: nat, text: seq<byte>)
    returns (ext': seq<Extent>)
    requires Laid(cols, props, size, b, ext, vals) && i < |props| && props[i].dataType in {String, Json}
    requires |Replaced(b, props[i].offset, text)| < 0x100_0000
    ensures Laid(cols, props, size, Replaced(b, props[i].offset, text), ext', vals[i := Blob(text)])
  {
    ReplacedCases(b, props[i].offset, text);
    if Overwrites(b, props[i].offset, text) {
      OverwrittenLaid(cols, props, size, b, ext, vals, i, text);
      ext' := ext[i := ext[i]];
    } else {
      ext' := AppendBlobLaid(cols, props, size, b, ext, vals, i, text);
    }
  }

  lemma SlotUntouched(b: seq<byte>, b': seq<byte>, p: Property, lo: nat)
    requires |b'| == |b| && 3 + p.End() <= lo <= |b| && forall k :: 0 <= k < lo ==> b'[k] == b[k]
    ensures SlotBytes(b', p) == SlotBytes(b, p)
  {
  }

  /** Overwriting inside the extent `e`: the slot now reads as the new text. */
  lemma OverwrittenSlot(cols: seq<Collection>, size: nat, b: seq<byte>, p: Property, e: Extent, v: Value,
                        text: seq<byte>)
    requires Slot(cols, b, size, p, e, v) && p.End() <= size && p.dataType in {String, Json}
    requires BlockAt(b, p.offset) != 0 && 3 + BlockAt(b, p.offset) == e.lo
    requires 3 + size <= e.lo && e.lo + 3 + |text| <= e.hi && |text| < 0x100_0000
    ensures Slot(cols, Patch(b, e.lo, BlobBlock(text)), size, p, e, Blob(text))
  {
    var b' := Patch(b, e.lo, BlobBlock(text));
    SlotUntouched(b, b', p, e.lo);
    BlobReads(cols, p, text);
    var slack := b'[e.lo + 3 + |text|..e.hi];
    assert b'[e.lo..e.hi] == BlobBlock(text) + slack;
    forall rest: seq<byte> ensures ReadBlock(cols, p, b'[e.lo..e.hi] + rest) == Ok(Blob(text)) {
      assert b'[e.lo..e.hi] + rest == BlobBlock(text) + (slack + rest);
    }
  }

  lemma OthersApart(ext: seq<Extent>, i: nat)
    requires i < |ext| && forall k, l :: 0 <= k < l < |ext| ==> ext[k].Apart(ext[l])
    ensures forall j :: 0 <= j < |ext| && j != i ==> ext[j].Apart(ext[i])
  {
    forall j | 0 <= j < |ext| && j != i ensures ext[j].Apart(ext[i]) {
      var k, l := if i < j then i else j, if i < j then j else i;
      assert ext[k].Apart(ext[l]);
    }
  }

  lemma OverwrittenLaid(cols: seq<Collection>, props: seq<Property>, size: nat, b: seq<byte>,
                        ext: seq<Extent>, vals: seq<Value>, i: nat, text: seq<byte>)
    requires Laid(cols, props, size, b, ext, vals) && i < |props| && props[i].dataType in {String, Json}
    requires |b| < 0x100_0000 && Overwrites(b, props[i].offset, text)
    ensures Laid(cols, props, size, Patch(b, 3 + BlockAt(b, props[i].offset), BlobBlock(text)),
                 ext[i := ext[i]], vals[i := Blob(text)])
  {
    var p, e := props[i], ext[i];
    BlobPlace(cols, props, size, b, ext, vals, i, text);
    OverwrittenSlot(cols, size, b, p, e, vals[i], text);
    OthersApart(ext, i);
    LaidUpdate(cols, props, size, b, Patch(b, e.lo, BlobBlock(text)), ext, vals, i, e, Blob(text));
  }

  /** Where the block lies that is overwritten, and that the new text fits in. */
  lemma BlobPlace(cols: seq<Collection>, props: seq<Property>, size: nat, b: seq<byte>,
                  ext: seq<Extent>, vals: seq<Value>, i: nat, text: seq<byte>)
    requires Laid(cols, props, size, b, ext, vals) && i < |props| && props[i].dataType in {String, Json}
    requires |b| < 0x100_0000 && Overwrites(b, props[i].offset, text)
    ensures var p, e := props[i], ext[i];
            && 3 + p.End() <= |b| && BlockAt(b, p.offset) != 0 && 3 + BlockAt(b, p.offset) == e.lo
            && 3 + size <= e.lo && e.lo + 3 + |text| <= e.hi <= |b| && |text| < 0x100_0000
            && ChangesOnly(size, b, Patch(b, e.lo, BlobBlock(text)), p, e)
  {
    var p := props[i];
    BlobInside(cols, props, size, b, ext, vals, i);
    assert b[3 + p.offset..6 + p.offset] == SlotBytes(b, p);
  }

  /** A legal update leaves nothing of the old value. */
  lemma ValueIsNew(props: seq<Property>, u: Change, before: Value)
    requires Legal(props, u)
    ensures ExpectLeaf(props[At(props, u)], TreeFor(props, u), before) == NewValue(props, u)
    ensures TreeFor(props, u).WString? ==> NewValue(props, u) == Blob(TreeFor(props, u).text)
  {
  }

  /** One legal update keeps the layout and has exactly its effect. */
  lemma UpdateLaid(cols: seq<Collection>, props: seq<Property>, size: nat, b: seq<byte>,
                   ext: seq<Extent>, vals: seq<Value>, u: Change)
    returns (ext': seq<Extent>)
    requires Laid(cols, props, size, b, ext, vals) && Legal(props, u)
    requires |Updated(props, u, b)| < 0x100_0000
    ensures Laid(cols, props, size, Updated(props, u, b), ext', vals[At(props, u) := NewValue(props, u)])
  {
    var i, t := At(props, u), TreeFor(props, u);
    if t.WString? {
      ValueIsNew(props, u, vals[i]);
      ext' := ReplacedLaid(cols, props, size, b, ext, vals, i, t.text);
    } else {
      ValueIsNew(props, u, vals[i]);
      ext' := LeafLaid(cols, props, size, b, ext, vals, i, t);
    }
  }

  /** Reopening with a static size no larger than the stored one only rewrites the header. */
  lemma ReopenLaid(cols: seq<Collection>, props: seq<Property>, size: nat, b: seq<byte>,
                   ext: seq<Extent>, vals: seq<Value>, size': nat)
    requires Laid(cols, props, size, b, ext, vals) && size' <= size && WellSlotted(props, size')
    ensures Opened(b, 0, size') == Patch(b, 0, U24(size'))
    ensures Laid(cols, props, size', Opened(b, 0, size'), ext, vals)
  {
    var b' := Opened(b, 0, size');
    forall i | 0 <= i < |props| ensures Slot(cols, b', size', props[i], ext[i], vals[i]) {
      assert Slot(cols, b, size, props[i], ext[i], vals[i]);
      assert SlotBytes(b', props[i]) == SlotBytes(b, props[i]);
      if ext[i].lo <= ext[i].hi && ext[i] != EMPTY {
        assert b'[ext[i].lo..ext[i].hi] == b[ext[i].lo..ext[i].hi];
      }
    }
  }

  /** `write_value`. */
  method WriteValue(ser: IsarSerializer, props: seq<Property>, u: Change) returns (ok: bool)
    requires WellSlotted(props, ser.staticSize) && ser.Valid()
    requires Legal(props, u) && TreeFor(props, u).WString? ==> BlockInside(ser.Object(), props[At(props, u)].offset)
    requires |ser.buffer| + Room([u]) < 0x100_0000
    modifies ser`buffer
    ensures ok <==> Legal(props, u)
    ensures ser.Valid() && ser.Before() == old(ser.Before())
    ensures ser.Object() == if ok then Updated(props, u, old(ser.Object())) else old(ser.Object())
  {
    ok := u.0 != 0 && u.0 <= |props| && CallFor(props[u.0 - 1].dataType, u.1).Some?;
    if ok {
      var p, t := props[At(props, u)], TreeFor(props, u);
      if t.WString? {
        RoomOne(u);
        ser.UpdateDynamic(p.offset, t.text);
      } else {
        WriteLeaf(ser, p, t);
      }
    }
  }

  /** Room the strings of the updates could need at most. */
  function Room(us: seq<Change>): nat {
    if us == [] then 0
    else (if us[0].1.Some? && us[0].1.value.StringValue? then 3 + |us[0].1.value.text| else 0) + Room(us[1..])
  }

  lemma RoomOne(u: Change)
    ensures Room([u]) == if u.1.Some? && u.1.value.StringValue? then 3 + |u.1.value.text| else 0
  {
    var none: seq<Change> := [];
    assert [u][1..] == none;
  }

  /** After the first `i` updates: what the buffer holds and what is still to come. */
  ghost predicate Halfway(cols: seq<Collection>, props: seq<Property>, size: nat, us: seq<Change>, i: nat,
                          b0: seq<byte>, vals0: seq<Value>, b: seq<byte>, ext: seq<Extent>, vals: seq<Value>)
  {
    && i <= |us| && |vals0| == |props| && Fits(props, b0)
    && AllLegal(props, us[..i])
    && Laid(cols, props, size, b, ext, vals)
    && |b| + Room(us[i..]) < 0x100_0000
    && (AllLegal(props, us) ==>
          && UpdatedAll(props, us, b0) == UpdatedAll(props, us[i..], b)
          && NewValues(props, us, vals0) == NewValues(props, us[i..], vals))
  }

  lemma HalfwayStep(cols: seq<Collection>, props: seq<Property>, size: nat, us: seq<Change>, i: nat,
                    b0: seq<byte>, vals0: seq<Value>, b: seq<byte>, ext: seq<Extent>, vals: seq<Value>)
    returns (ext': seq<Extent>)
    requires Halfway(cols, props, size, us, i, b0, vals0, b, ext, vals)
    requires i < |us| && Legal(props, us[i])
    ensures Halfway(cols, props, size, us, i + 1, b0, vals0, Updated(props, us[i], b), ext',
                    vals[At(props, us[i]) := NewValue(props, us[i])])
  {
    assert us[i..][0] == us[i] && us[i..][1..] == us[i + 1..];
    assert us[..i + 1] == us[..i] + [us[i]];
    assert |Updated(props, us[i], b)| + Room(us[i + 1..]) <= |b| + Room(us[i..]);
    ext' := UpdateLaid(cols, props, size, b, ext, vals, us[i]);
  }

  /** What one loop iteration needs to know about the next update. */
  lemma HalfwayReady(cols: seq<Collection>, props: seq<Property>, size: nat, us: seq<Change>, i: nat,
                     b0: seq<byte>, vals0: seq<Value>, b: seq<byte>, ext: seq<Extent>, vals: seq<Value>)
    requires Halfway(cols, props, size, us, i, b0, vals0, b, ext, vals) && i < |us|
    ensures |b| + Room([us[i]]) < 0x100_0000
    ensures Legal(props, us[i]) && TreeFor(props, us[i]).WString? ==> BlockInside(b, props[At(props, us[i])].offset)
  {
    assert us[i..][0] == us[i];
    RoomOne(us[i]);
    if Legal(props, us[i]) && TreeFor(props, us[i]).WString? {
      BlobInside(cols, props, size, b, ext, vals, At(props, us[i]));
    }
  }

  /** One iteration. */
  method UpdateOne(ser: IsarSerializer, cols: seq<Collection>, props: seq<Property>, us: seq<Change>, i: nat,
                   ghost b0: seq<byte>, ghost vals0: seq<Value>, ghost ext: seq<Extent>, ghost vals: seq<Value>)
    returns (ok: bool, ghost ext': seq<Extent>, ghost vals': seq<Value>)
    requires ser.Valid() && ser.offset == 3 && i < |us|
    requires Halfway(cols, props, ser.staticSize, us, i, b0, vals0, ser.buffer, ext, vals)
    modifies ser`buffer
    ensures ser.Valid() && (ok <==> Legal(props, us[i]))
    ensures ok ==> Halfway(cols, props, ser.staticSize, us, i + 1, b0, vals0, ser.buffer, ext', vals')
  {
    ext', vals' := ext, vals;
    HalfwayReady(cols, props, ser.staticSize, us, i, b0, vals0, ser.buffer, ext, vals);
    ghost var b := ser.buffer;
    WholeBuffer(ser);
    ok := WriteValue(ser, props, us[i]);
    WholeBuffer(ser);
    if ok {
      ext' := HalfwayStep(cols, props, ser.staticSize, us, i, b0, vals0, b, ext, vals);
      vals' := vals[At(props, us[i]) := NewValue(props, us[i])];
    }
  }

  lemma WholeBuffer(ser: IsarSerializer)
    requires ser.Valid() && ser.offset == 3
    ensures ser.Object() == ser.buffer
  {
  }

  /**
   `update` without the final `put`: fails exactly when some update is illegal; otherwise the result
   reads as the old object with exactly the listed properties changed.
   */
  method Update(cols: seq<Collection>, c: Collection, stored: seq<byte>, us: seq<Change>,
                ghost size: nat, ghost ext: seq<Extent>, ghost vals: seq<Value>)
    returns (r: Result<seq<byte>>, ghost ext': seq<Extent>)
    requires WellSlotted(c.properties, c.staticSize) && c.staticSize <= size
    requires Laid(cols, c.properties, size, stored, ext, vals)
    requires |stored| + Room(us) < 0x100_0000
    ensures r.Success? <==> AllLegal(c.properties, us)
    ensures r.Success? ==>
              && r.value == UpdatedAll(c.properties, us, Opened(stored, 0, c.staticSize))
              && Laid(cols, c.properties, c.staticSize, r.value, ext', NewValues(c.properties, us, vals))
  {
    ReopenLaid(cols, c.properties, size, stored, ext, vals, c.staticSize);
    var ser := new IsarSerializer(stored, 0, c.staticSize);
    ghost var b0 := Opened(stored, 0, c.staticSize);
    ghost var now := vals;
    ext' := ext;
    var i := 0;
    assert us[0..] == us;
    while i < |us|
      invariant fresh(ser) && ser.Valid() && ser.offset == 3 && ser.staticSize == c.staticSize
      invariant Halfway(cols, c.properties, c.staticSize, us, i, b0, vals, ser.buffer, ext', now)
    {
      var ok;
      ok, ext', now := UpdateOne(ser, cols, c.properties, us, i, b0, vals, ext', now);
      if !ok {
        return IllegalArgument, ext';
      }
      i := i + 1;
    }
    assert us[..i] == us && us[i..] == [];
    var bytes := ser.Finish();
    r := Success(bytes);
  }

  /**
   The reason for `c.staticSize <= size` above. An object stored before the collection grew has a
   shorter static section; reopening it stretches the section over its dynamic data, or over zero
   bytes. For the property `p` that ends the static section, an update that changes nothing leaves all
   objects of static size `size` as they read before exactly when the collection has not grown.
   */
  lemma ReopenExact(cols: seq<Collection>, p: Property, size: nat, size': nat)
    requires p.End() == size' < 0x100_0000 && size < 0x100_0000
    requires p.offset >= size || p.End() <= size
    ensures (forall b: seq<byte> :: |b| >= 3 + size && b[..3] == U24(size) ==> ReopenKeeps(cols, p, size, size', b))
            <==> size' <= size
  {
    if size' <= size {
      forall b: seq<byte> | |b| >= 3 + size && b[..3] == U24(size) ensures ReopenKeeps(cols, p, size, size', b) {
        assert Opened(b, 0, size')[3..] == b[3..];
      }
    } else if p.dataType.IsDynamic() {
      FilledReopened(cols, p, size, size');
    } else {
      BlankReopened(cols, p, size, size');
    }
  }

  /** An object whose bytes behind the static section end in three ones. */
  function Filled(size: nat, offset: nat): (b: seq<byte>)
    requires size <= offset
    ensures |b| == offset + 6 >= 3 + size && b[..3] == U24(size)
  {
    U24(size) + Zeros(offset) + [255, 255, 255]
  }

  lemma FilledReopened(cols: seq<Collection>, p: Property, size: nat, size': nat)
    requires p.dataType.IsDynamic() && p.End() == size' < 0x100_0000 && size <= p.offset
    ensures !ReopenKeeps(cols, p, size, size', Filled(size, p.offset))
  {
    var b := Filled(size, p.offset);
    var d := IsarDeserializer(Opened(b, 0, size')[3..], size');
    assert d.bytes == b[3..];
    var raw := d.bytes[p.offset..p.offset + 3];
    assert raw == [255, 255, 255];
    LargestOffset(raw);
    assert d.Slice(p.offset, 3) == Ok(raw);
    if |d.bytes| == 0xFF_FFFF {
      assert d.Target(p.offset) == Ok(Some(d.bytes[|d.bytes|..]));
      assert d.bytes[|d.bytes|..] == [];
      EmptyBlock(cols, p);
    } else {
      assert d.Target(p.offset) == Panic;
    }
  }

  lemma LargestOffset(raw: seq<byte>)
    requires raw == [255, 255, 255]
    ensures FromLe(raw) == 0xFF_FFFF
  {
    ThreeBytes(255, 255, 255);
  }

  lemma EmptyBlock(cols: seq<Collection>, p: Property)
    requires p.dataType.IsDynamic()
    ensures ReadBlock(cols, p, []) == Panic
  {
  }

  /** `p` reads from the reopened object as it did before. */
  ghost predicate ReopenKeeps(cols: seq<Collection>, p: Property, size: nat, size': nat, b: seq<byte>)
    requires |b| >= 3
  {
    ReadProperty(cols, p, IsarDeserializer(Opened(b, 0, size')[3..], size'))
    == ReadProperty(cols, p, IsarDeserializer(b[3..], size))
  }

  lemma BlankReopened(cols: seq<Collection>, p: Property, size: nat, size': nat)
    requires !p.dataType.IsDynamic() && p.End() == size' && size <= p.offset
    ensures |Blank(size)| >= 3 + size && Blank(size)[..3] == U24(size)
    ensures !ReopenKeeps(cols, p, size, size', Blank(size))
  {
    var b' := Opened(Blank(size), 0, size')[3..];
    var raw := b'[p.offset..p.End()];
    assert forall k :: 0 <= k < |raw| ==> raw[k] == 0;
    ZeroReads(p.dataType, raw);
    assert ReadProperty(cols, p, IsarDeserializer(Blank(size)[3..], size)) == Ok(Null);
    assert ReadProperty(cols, p, IsarDeserializer(b', size')) == Ok(Default(p.dataType));
  }

  lemma ZeroReads(t: DataType, raw: seq<byte>)
    requires !t.IsDynamic() && |raw| == t.StaticSize() && forall k :: 0 <= k < |raw| ==> raw[k] == 0
    ensures ScalarOf(t, raw) == Default(t) != Null
  {
    ZeroLe(raw);
  }

  /** The object with one string property. */
  lemma OneString(text: seq<byte>)
    ensures WellFormed([]) && WellSlotted([Property(String, 0, None)], 3)
    ensures Encode([], Collection([Property(String, 0, None)], 3), [Write(0, WString(text))])
         == AppendBlock(Blank(3), 0, BlobBlock(text))
  {
    var props, w := [Property(String, 0, None)], Write(0, WString(text));
    assert Call([], props, w, Blank(3)) == AppendBlock(Blank(3), 0, BlobBlock(text));
    assert [w][1..] == [];
    assert StoreAll([], props, [w][1..], Call([], props, w, Blank(3))) == Call([], props, w, Blank(3));
  }

  /** A block written at the end of a three-byte section starts where a longer section would end. */
  lemma ByteBehindSection(block: seq<byte>)
    requires |block| > 0
    ensures Opened(AppendBlock(Blank(3), 0, block), 0, 4)[3..][3..4] == [block[0]]
  {
    assert AppendBlock(Blank(3), 0, block)[6] == block[0];
  }

  /**
   The damage is not limited to nulls: a one-letter string stored when the static section had three
   bytes, then an update that touches nothing under a schema with one more boolean, and the boolean
   is true.
   */
  lemma ShortSectionExample()
    ensures var text := Property(String, 0, None);
            var flag := Property(Bool, 3, None);
            var stored := Encode([], Collection([text], 3), [Write(0, WString([97]))]);
            && ReadProperty([], flag, IsarDeserializer(stored[3..], 3)) == Ok(Null)
            && ReadProperty([], flag, IsarDeserializer(Opened(stored, 0, 4)[3..], 4)) == Ok(Boolean(true))
  {
    OneString([97]);
    ByteBehindSection(BlobBlock([97]));
    assert BlobBlock([97])[0] == U24(1)[0] == 1;
  }

  /** Nor to wrong values: with one more string property instead, reading that property panics. */
  lemma AppendedStringExample()
    ensures var text := Property(String, 0, None);
            var more := Property(String, 3, None);
            var stored := Encode([], Collection([text], 3), [Write(0, WString([97]))]);
            && ReadProperty([], more, IsarDeserializer(stored[3..], 3)) == Ok(Null)
            && UpdatedAll([text, more], [], Opened(stored, 0, 6)) == Opened(stored, 0, 6)
            && ReadProperty([], more, IsarDeserializer(Opened(stored, 0, 6)[3..], 6)) == Panic
  {
    OneString([97]);
    var b := Opened(AppendBlock(Blank(3), 0, BlobBlock([97])), 0, 6)[3..];
    OneLetter(b);
    PastTheEnd(IsarDeserializer(b, 6));
  }

  /** The length of the first block is read as an offset, and what is there as a length. */
  lemma PastTheEnd(d: IsarDeserializer)
    requires d == IsarDeserializer([3, 0, 0, 1, 0, 0, 97], 6)
    ensures ReadProperty([], Property(String, 3, None), d) == Panic
  {
    assert d.bytes[3..6] == [1, 0, 0];
    ThreeBytes(1, 0, 0);
    assert d.Target(3) == Ok(Some(d.bytes[1..]));
    assert d.bytes[1..][..3] == [0, 0, 1];
    ThreeBytes(0, 0, 1);
  }

  lemma ThreeBytes(x: byte, y: byte, z: byte)
    ensures FromLe([x, y, z]) == x + 0x100 * y + 0x1_0000 * z
  {
    assert [x, y, z][1..] == [y, z] && [y, z][1..] == [z] && [z][1..] == [];
    assert FromLe([z]) == z;
    assert FromLe([y, z]) == y + 0x100 * FromLe([z]);
  }

  lemma OneLetter(b: seq<byte>)
    requires b == Opened(AppendBlock(Blank(3), 0, BlobBlock([97])), 0, 6)[3..]
    ensures b == [3, 0, 0, 1, 0, 0, 97]
  {
    var block := BlobBlock([97]);
    assert block == [1, 0, 0, 97];
    assert U24(3) == [3, 0, 0];
    var stored := AppendBlock(Blank(3), 0, block);
    assert stored[3..] == U24(3) + block;
  }
}
