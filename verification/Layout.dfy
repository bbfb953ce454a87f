/**
 The invariant of a well-formed object buffer: every property has its own place in the static
 section, every non-null dynamic property its own extent behind it, and no two extents overlap.
 Reading depends on nothing else, so any write that respects the extents is local.
 */
module Layout {
  import opened Bytes
  import opened LittleEndian
  import opened Deserializer

  /** Properties lie inside the static section, side by side. */
  ghost predicate WellSlotted(props: seq<Property>, size: nat) {
    && (forall i :: 0 <= i < |props| ==> props[i].End() <= size)
    && forall i, j :: 0 <= i < j < |props| ==>
         props[i].End() <= props[j].offset || props[j].End() <= props[i].offset
  }

  ghost predicate WellFormed(cols: seq<Collection>) {
    forall c :: 0 <= c < |cols| ==>
      && WellSlotted(cols[c].properties, cols[c].staticSize)
      && EmbeddedInRange(cols, cols[c].properties)
  }

  ghost predicate EmbeddedInRange(cols: seq<Collection>, props: seq<Property>) {
    forall i :: 0 <= i < |props| && props[i].embedded.Some? ==> props[i].embedded.value < |cols|
  }

  /** The bytes `[lo, hi)` of an object hold one dynamic block. */
  datatype Extent = Extent(lo: nat, hi: nat) {
    predicate Apart(other: Extent) { hi <= other.lo || other.hi <= lo }
  }

  const EMPTY: Extent := Extent(0, 0)

  /** The static bytes of property `p` in the object buffer `b` (header included). */
  function SlotBytes(b: seq<byte>, p: Property): (r: seq<byte>)
    requires 3 + p.End() <= |b|
    ensures |r| == p.dataType.StaticSize()
  {
    b[3 + p.offset..3 + p.End()]
  }

  /** `block` reads as `v`, whatever follows it in the buffer. */
  ghost predicate ReadsAs(cols: seq<Collection>, p: Property, block: seq<byte>, v: Value)
    requires p.dataType.IsDynamic()
  {
    forall rest: seq<byte> :: ReadBlock(cols, p, block + rest) == Ok(v)
  }

  ghost predicate Slot(cols: seq<Collection>, b: seq<byte>, size: nat, p: Property, e: Extent, v: Value) {
    && 3 + p.End() <= |b|
    && if p.dataType.IsDynamic() then
         var at := FromLe(SlotBytes(b, p));
         if at == 0 then
           v == Null && e == EMPTY
         else
           && e.lo == 3 + at && 3 + size <= e.lo && e.hi <= |b|
           && e.lo <= e.hi
           && ReadsAs(cols, p, b[e.lo..e.hi], v)
       else
         e == EMPTY && v == ScalarOf(p.dataType, SlotBytes(b, p))
  }

  ghost predicate Laid(cols: seq<Collection>, props: seq<Property>, size: nat, b: seq<byte>,
                       ext: seq<Extent>, vals: seq<Value>)
  {
    && |ext| == |vals| == |props|
    && WellSlotted(props, size)
    && 3 + size <= |b| && b[..3] == U24(size) && size < 0x100_0000
    && (forall i :: 0 <= i < |props| ==> Slot(cols, b, size, props[i], ext[i], vals[i]))
    && forall i, j :: 0 <= i < j < |props| ==> ext[i].Apart(ext[j])
  }

  /** A slot only depends on its static bytes and its extent. */
  lemma SlotFrame(cols: seq<Collection>, b: seq<byte>, b': seq<byte>, size: nat, p: Property, e: Extent, v: Value)
    requires Slot(cols, b, size, p, e, v)
    requires |b| <= |b'|
    requires SlotBytes(b', p) == SlotBytes(b, p)
    requires e.lo <= e.hi ==> b'[e.lo..e.hi] == b[e.lo..e.hi]
    ensures Slot(cols, b', size, p, e, v)
  {
  }

  /** A laid out object reads as its values. */
  lemma LaidReads(cols: seq<Collection>, props: seq<Property>, size: nat, b: seq<byte>,
                  ext: seq<Extent>, vals: seq<Value>, i: nat)
    requires Laid(cols, props, size, b, ext, vals) && i < |props|
    ensures IsarDeserializer.FromBytes(b) == Ok(IsarDeserializer(b[3..], size))
    ensures ReadProperty(cols, props[i], IsarDeserializer(b[3..], size)) == Ok(vals[i])
  {
    U24RoundTrip(size);
    var p, e := props[i], ext[i];
    var d := IsarDeserializer(b[3..], size);
    assert d.ContainsOffset(p.offset);
    assert d.Slice(p.offset, p.dataType.StaticSize()) == Ok(SlotBytes(b, p)) by {
      assert b[3..][p.offset..p.End()] == SlotBytes(b, p);
    }
    if p.dataType.IsDynamic() && FromLe(SlotBytes(b, p)) != 0 {
      var at := FromLe(SlotBytes(b, p));
      assert d.bytes[at..] == b[e.lo..e.hi] + b[e.hi..];
    }
  }

  lemma LaidReadsAll(cols: seq<Collection>, props: seq<Property>, size: nat, b: seq<byte>,
                     ext: seq<Extent>, vals: seq<Value>)
    requires Laid(cols, props, size, b, ext, vals)
    ensures IsarDeserializer.FromBytes(b) == Ok(IsarDeserializer(b[3..], size))
    ensures ReadAll(cols, props, IsarDeserializer(b[3..], size)) == Ok(vals)
  {
    U24RoundTrip(size);
    forall i | 0 <= i < |props| ensures ReadProperty(cols, props[i], IsarDeserializer(b[3..], size)) == Ok(vals[i]) {
      LaidReads(cols, props, size, b, ext, vals, i);
    }
    ReadAllIs(cols, props, IsarDeserializer(b[3..], size), vals);
  }

  /** Bytes appended behind an object do not matter. */
  lemma LaidAppend(cols: seq<Collection>, props: seq<Property>, size: nat, b: seq<byte>,
                   ext: seq<Extent>, vals: seq<Value>, rest: seq<byte>)
    requires Laid(cols, props, size, b, ext, vals)
    ensures Laid(cols, props, size, b + rest, ext, vals)
  {
    forall i | 0 <= i < |props| ensures Slot(cols, b + rest, size, props[i], ext[i], vals[i]) {
      assert SlotBytes(b + rest, props[i]) == SlotBytes(b, props[i]);
      SlotFrame(cols, b, b + rest, size, props[i], ext[i], vals[i]);
    }
  }

  /** `b'` differs from `b` at most in the static bytes of `p` and inside the extent `e`. */
  ghost predicate ChangesOnly(size: nat, b: seq<byte>, b': seq<byte>, p: Property, e: Extent) {
    && |b| <= |b'|
    && forall j :: 0 <= j < |b| ==>
         b'[j] == b[j] || 3 + p.offset <= j < 3 + p.End() || (3 + size <= j && e.lo <= j < e.hi)
  }

  lemma OtherSlotKept(cols: seq<Collection>, size: nat, b: seq<byte>, b': seq<byte>,
                      p: Property, e: Extent, q: Property, f: Extent, v: Value)
    requires ChangesOnly(size, b, b', p, e)
    requires p.End() <= size && q.End() <= size && 3 + size <= |b|
    requires p.End() <= q.offset || q.End() <= p.offset
    requires f.Apart(e) && Slot(cols, b, size, q, f, v)
    ensures Slot(cols, b', size, q, f, v)
  {
    assert SlotBytes(b', q) == SlotBytes(b, q);
    if q.dataType.IsDynamic() && FromLe(SlotBytes(b, q)) != 0 {
      assert b'[f.lo..f.hi] == b[f.lo..f.hi];
    }
    SlotFrame(cols, b, b', size, q, f, v);
  }

  /** The one step of every write: property `i` gets a new value and extent, the others keep theirs. */
  lemma LaidUpdate(cols: seq<Collection>, props: seq<Property>, size: nat, b: seq<byte>, b': seq<byte>,
                   ext: seq<Extent>, vals: seq<Value>, i: nat, e: Extent, v: Value)
    requires Laid(cols, props, size, b, ext, vals) && i < |props|
    requires ChangesOnly(size, b, b', props[i], e)
    requires Slot(cols, b', size, props[i], e, v)
    requires forall j :: 0 <= j < |props| && j != i ==> ext[j].Apart(e)
    ensures Laid(cols, props, size, b', ext[i := e], vals[i := v])
  {
    forall j | 0 <= j < |props| && j != i ensures Slot(cols, b', size, props[j], ext[j], vals[j]) {
      var k, l := if i < j then i else j, if i < j then j else i;
      assert props[k].End() <= props[l].offset || props[l].End() <= props[k].offset;
      OtherSlotKept(cols, size, b, b', props[i], e, props[j], ext[j], vals[j]);
    }
    assert b'[..3] == b[..3];
  }
}
