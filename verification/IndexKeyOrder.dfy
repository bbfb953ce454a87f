/** Byte order of composite keys is tuple order of the values. */
module IndexKeyOrder {
  import opened Bytes
  import opened LittleEndian
  import opened KeyOrder
  import opened Deserializer
  import opened IndexKey

  // ----- floating point numbers

  function Pow2(n: nat): (r: nat)
    ensures r > 0
  {
    if n == 0 then 1 else 2 * Pow2(n - 1)
  }

  lemma {:induction false} Pow2Grows(m: nat, n: nat)
    requires m <= n
    ensures Pow2(m) <= Pow2(n)
  {
    if m < n { Pow2Grows(m, n - 1); }
  }

  /**
   The magnitude of a binary floating point number in units of its smallest subnormal (section 3.4
   of IEEE 754-2008); `p` is two to the number of fraction bits. Infinity is the next step after
   the largest finite number.
   */
  function Magnitude(p: nat, bits: nat): nat
    requires p > 0
  {
    FromParts(p, bits / p, bits % p)
  }

  function FromParts(p: nat, exponent: nat, fraction: nat): nat {
    if exponent == 0 then fraction else (p + fraction) * Pow2(exponent - 1)
  }

  lemma FractionGrows(p: nat, e: nat, f: nat, g: nat)
    requires f < g
    ensures FromParts(p, e, f) < FromParts(p, e, g)
  {
    if e > 0 { MulStrict(p + f, p + g, Pow2(e - 1)); }
  }

  lemma MulStrict(a: nat, b: nat, w: nat)
    requires a < b && w > 0
    ensures a * w < b * w
  {
    assert b * w == a * w + (b - a) * w;
  }

  lemma MulMonotone(p: nat, a: nat, b: nat)
    requires a <= b
    ensures p * a <= p * b
  {
    assert p * b == p * a + p * (b - a);
  }

  /** A larger exponent wins: the smaller number is below `2 * p * v`, the larger at least `p * w`. */
  lemma ExponentGrows(p: nat, e: nat, f: nat, e': nat, f': nat)
    requires e < e' && f < p
    ensures FromParts(p, e, f) < FromParts(p, e', f')
  {
    var w := Pow2(e' - 1);
    AtLeast(p, f', w);
    if e == 0 {
      MulMonotone(p, 1, w);
    } else {
      Pow2Grows(e, e' - 1);
      Below(p, f, Pow2(e - 1));
      MulMonotone(p, 2 * Pow2(e - 1), w);
    }
  }

  lemma AtLeast(p: nat, f: nat, w: nat)
    ensures p * w <= (p + f) * w
  {
    assert (p + f) * w == p * w + f * w;
  }

  lemma Below(p: nat, f: nat, v: nat)
    requires f < p && v > 0
    ensures (p + f) * v < p * (2 * v)
  {
    MulStrict(p + f, 2 * p, v);
    assert (2 * p) * v == p * (2 * v);
  }

  lemma MagnitudeGrows(p: nat, a: nat, b: nat)
    requires p > 0 && a < b
    ensures Magnitude(p, a) < Magnitude(p, b)
  {
    QuotientsGrow(p, a, b);
    if a / p == b / p {
      FractionGrows(p, a / p, a % p, b % p);
    } else {
      ExponentGrows(p, a / p, a % p, b / p, b % p);
    }
  }

  lemma QuotientsGrow(p: nat, a: nat, b: nat)
    requires p > 0 && a < b
    ensures a / p <= b / p && (a / p == b / p ==> a % p < b % p)
  {
    if b / p < a / p {
      MulMonotone(p, b / p + 1, a / p);
      Division(a, p);
      Division(b, p);
    }
  }

  lemma Division(n: nat, p: nat)
    requires p > 0
    ensures p * (n / p) <= n < p * (n / p + 1)
  {
    assert n == p * (n / p) + n % p;
  }

  /** The value of a bit pattern with sign weight `s`, and the totalOrder of section 5.10 on non-NaNs. */
  function FloatValue(p: nat, s: nat, bits: nat): int
    requires p > 0
  {
    if bits < s then Magnitude(p, bits) else 0 - Magnitude(p, bits - s)
  }

  function CompareFloats(p: nat, s: nat, a: nat, b: nat): Ordering
    requires p > 0
  {
    var c := CompareInt(FloatValue(p, s, a), FloatValue(p, s, b));
    if c != Equal then c
    else if a >= s && b < s then Less      // -0 before +0
    else if a < s && b >= s then Greater
    else Equal
  }

  /** Sign-magnitude patterns, ordered through their key bits. */
  lemma SignMagnitudeOrder(p: nat, s: nat, a: nat, b: nat)
    requires p > 0 && a < 2 * s && b < 2 * s
    ensures CompareFloats(p, s, a, b)
         == CompareInt(if a < s then a + s else 2 * s - 1 - a, if b < s then b + s else 2 * s - 1 - b)
  {
    var x, y := if a < s then a else a - s, if b < s then b else b - s;
    if x < y { MagnitudeGrows(p, x, y); }
    if y < x { MagnitudeGrows(p, y, x); }
    if x > 0 { MagnitudeGrows(p, 0, x); }
    if y > 0 { MagnitudeGrows(p, 0, y); }
    assert Magnitude(p, 0) == 0;
  }

  const SINGLE: nat := 0x80_0000
  const DOUBLE: nat := 0x10_0000_0000_0000

  // ----- the order of values

  /** Null before everything else. */
  function NullsFirst(aNull: bool, bNull: bool, otherwise: Ordering): Ordering {
    if aNull && bNull then Equal else if aNull then Less else if bNull then Greater else otherwise
  }

  predicate SameKind(a: Component, b: Component) {
    match a
    case BoolKey(_) => b.BoolKey?
    case ByteKey(_) => b.ByteKey?
    case IntKey(_) => b.IntKey?
    case LongKey(_) => b.LongKey?
    case FloatKey(_) => b.FloatKey?
    case DoubleKey(_) => b.DoubleKey?
    case StringKey(_) => b.StringKey?
  }

  function CompareValues(a: Component, b: Component): Ordering
    requires SameKind(a, b)
  {
    NullsFirst(a.IsNull(), b.IsNull(),
      if a.IsNull() || b.IsNull() then Equal
      else
        match a
        case BoolKey(Some(x)) => if x == b.flag.value then Equal else if b.flag.value then Less else Greater
        case ByteKey(x) => CompareInt(x, b.octet)
        case IntKey(x) => CompareInt(x, b.number)
        case LongKey(x) => CompareInt(x, b.wide)
        case FloatKey(x) => CompareFloats(SINGLE, TWO31, x, b.single)
        case DoubleKey(x) => CompareFloats(DOUBLE, TWO63, x, b.double)
        case StringKey(Some(x)) => CompareBytes(x, b.text.value))
  }

  ghost predicate SameShape(xs: seq<Component>, ys: seq<Component>) {
    |xs| == |ys| && forall i :: 0 <= i < |xs| ==> SameKind(xs[i], ys[i])
  }

  /** The first difference decides. */
  function CompareTuples(xs: seq<Component>, ys: seq<Component>): Ordering
    requires SameShape(xs, ys)
  {
    if xs == [] then Equal
    else
      var n := |xs| - 1;
      var c := CompareTuples(xs[..n], ys[..n]);
      if c == Equal then CompareValues(xs[n], ys[n]) else c
  }

  /** `verify`: only the last property of an index that is not hashed may be a string. */
  ghost predicate StringLast(xs: seq<Component>) {
    forall i :: 0 <= i < |xs| - 1 ==> !xs[i].StringKey?
  }

  // ----- proofs

  lemma FixedWidthOrder(a: Component, b: Component)
    requires SameKind(a, b) && !a.StringKey?
    ensures |KeyBytes(a)| == |KeyBytes(b)|
    ensures CompareBytes(KeyBytes(a), KeyBytes(b)) == CompareValues(a, b)
  {
    Widths();
    match a
    case BoolKey(_) => OneByte(KeyBytes(a)[0], KeyBytes(b)[0]);
    case ByteKey(_) => OneByte(KeyBytes(a)[0], KeyBytes(b)[0]);
    case IntKey(x) => BigEndianOrder(FlipSign32(Unsigned32(x)), FlipSign32(Unsigned32(b.number)), Width(a));
    case LongKey(x) => BigEndianOrder(FlipSign64(Unsigned64(x)), FlipSign64(Unsigned64(b.wide)), Width(a));
    case FloatKey(x) => SingleOrder(x, b.single);
    case DoubleKey(x) => DoubleOrder(x, b.double);
  }

  lemma {:induction false} ZeroBe(k: nat)
    ensures ToBe(0, k) == Zeros(k)
  {
    if k == 0 {
    } else {
      ZeroBe(k - 1);
    }
  }

  /** The key bits of a float as one number; zero for NaN. */
  function SingleBits(x: u32): u32 { if IsNan32(x) then 0 else FloatBits(x) }

  function DoubleKeyBits(x: u64): u64 { if IsNan64(x) then 0 else DoubleBits(x) }

  lemma SingleKey(x: u32)
    ensures KeyBytes(FloatKey(x)) == ToBe(SingleBits(x), 4) && (SingleBits(x) == 0 <==> IsNan32(x))
  {
    ZeroBe(4);
  }

  lemma DoubleKeyIs(x: u64)
    ensures KeyBytes(DoubleKey(x)) == ToBe(DoubleKeyBits(x), 8) && (DoubleKeyBits(x) == 0 <==> IsNan64(x))
  {
    ZeroBe(8);
  }

  lemma SingleOrder(x: u32, y: u32)
    ensures |KeyBytes(FloatKey(x))| == 4
    ensures CompareBytes(KeyBytes(FloatKey(x)), KeyBytes(FloatKey(y))) == CompareValues(FloatKey(x), FloatKey(y))
  {
    Widths();
    SingleKey(x);
    SingleKey(y);
    BigEndianOrder(SingleBits(x), SingleBits(y), 4);
    SignMagnitudeOrder(SINGLE, TWO31, x, y);
  }

  lemma DoubleOrder(x: u64, y: u64)
    ensures |KeyBytes(DoubleKey(x))| == 8
    ensures CompareBytes(KeyBytes(DoubleKey(x)), KeyBytes(DoubleKey(y))) == CompareValues(DoubleKey(x), DoubleKey(y))
  {
    Widths();
    DoubleKeyIs(x);
    DoubleKeyIs(y);
    BigEndianOrder(DoubleKeyBits(x), DoubleKeyBits(y), 8);
    SignMagnitudeOrder(DOUBLE, TWO63, x, y);
  }

  /**
   The string keys that are not told apart or not sorted right: null is [0] like the string U+0000,
   and the empty string is [1], which every string starting with U+0000 precedes and U+0001 equals.
   */
  predicate Clash(s: Option<seq<byte>>, t: Option<seq<byte>>) {
    || (s == None && t == Some([0]))
    || (t == None && s == Some([0]))
    || (s == Some([]) && t.Some? && t.value != [] && (t.value[0] == 0 || t.value == [1]))
    || (t == Some([]) && s.Some? && s.value != [] && (s.value[0] == 0 || s.value == [1]))
  }

  lemma StringOrderExact(s: Option<seq<byte>>, t: Option<seq<byte>>)
    ensures CompareBytes(KeyBytes(StringKey(s)), KeyBytes(StringKey(t))) == CompareValues(StringKey(s), StringKey(t))
       <==> !Clash(s, t)
  {
    assert forall x: seq<byte> :: |x| == 1 ==> x == [x[0]];
    MarkerAgainst(0, KeyBytes(StringKey(t)));
    MarkerAgainst(1, KeyBytes(StringKey(t)));
    MarkerAgainst(0, KeyBytes(StringKey(s)));
    MarkerAgainst(1, KeyBytes(StringKey(s)));
  }

  lemma MarkerAgainst(m: byte, t: seq<byte>)
    requires t != []
    ensures CompareBytes([m], t) == if m != t[0] then CompareInt(m, t[0]) else if |t| == 1 then Equal else Less
    ensures CompareBytes(t, [m]) == if m != t[0] then CompareInt(t[0], m) else if |t| == 1 then Equal else Greater
  {
    var none: seq<byte> := [];
    assert [m][1..] == none;
    if |t| == 1 { assert t[1..] == none; }
  }

  lemma {:induction false} FixedPrefixOrder(xs: seq<Component>, ys: seq<Component>)
    requires SameShape(xs, ys) && forall i :: 0 <= i < |xs| ==> !xs[i].StringKey?
    ensures |AllBytes(xs)| == |AllBytes(ys)|
    ensures CompareBytes(AllBytes(xs), AllBytes(ys)) == CompareTuples(xs, ys)
  {
    if xs == [] {
    } else {
      var n := |xs| - 1;
      FixedPrefixOrder(xs[..n], ys[..n]);
      FixedWidthOrder(xs[n], ys[n]);
      AppendOrder(AllBytes(xs[..n]), AllBytes(ys[..n]), KeyBytes(xs[n]), KeyBytes(ys[n]));
    }
  }

  lemma AppendOrder(a: seq<byte>, b: seq<byte>, x: seq<byte>, y: seq<byte>)
    requires |a| == |b|
    ensures CompareBytes(a + x, b + y) == if CompareBytes(a, b) == Equal then CompareBytes(x, y) else CompareBytes(a, b)
  {
    CompareEqual(a, b);
    if a == b {
      ComparePrefix(a, x, y);
    } else {
      CompareHeads(a, b, x, y);
    }
  }

  /** The keys agree up to a last pair of clashing strings. */
  ghost predicate TuplesClash(xs: seq<Component>, ys: seq<Component>)
    requires SameShape(xs, ys)
  {
    var n := |xs| - 1;
    n >= 0 && xs[n].StringKey? && CompareTuples(xs[..n], ys[..n]) == Equal && Clash(xs[n].text, ys[n].text)
  }

  /** Byte order of two keys of one index is tuple order, except exactly for clashing strings. */
  lemma KeyOrderExact(xs: seq<Component>, ys: seq<Component>)
    requires SameShape(xs, ys) && StringLast(xs)
    ensures CompareBytes(AllBytes(xs), AllBytes(ys)) == CompareTuples(xs, ys) <==> !TuplesClash(xs, ys)
  {
    if xs != [] {
      var n := |xs| - 1;
      FixedPrefixOrder(xs[..n], ys[..n]);
      AppendOrder(AllBytes(xs[..n]), AllBytes(ys[..n]), KeyBytes(xs[n]), KeyBytes(ys[n]));
      if xs[n].StringKey? {
        StringOrderExact(xs[n].text, ys[n].text);
      } else {
        FixedWidthOrder(xs[n], ys[n]);
      }
    }
  }

  /** Keys are equal only for tuples that no order tells apart: nulls agree position by position. */
  lemma {:induction false} EqualTuples(xs: seq<Component>, ys: seq<Component>)
    requires SameShape(xs, ys) && CompareTuples(xs, ys) == Equal
    ensures forall i :: 0 <= i < |xs| ==> CompareValues(xs[i], ys[i]) == Equal && xs[i].IsNull() == ys[i].IsNull()
    ensures HasNull(xs) <==> HasNull(ys)
  {
    if xs == [] {
    } else {
      EqualTuples(xs[..|xs| - 1], ys[..|xs| - 1]);
    }
  }

  /** Different strings with the same key bytes. */
  predicate Alias(s: Option<seq<byte>>, t: Option<seq<byte>>) {
    || (s == None && t == Some([0]))
    || (t == None && s == Some([0]))
    || (s == Some([]) && t == Some([1]))
    || (t == Some([]) && s == Some([1]))
  }

  /** The values are equal, or equal up to aliases in the last place. */
  ghost predicate Indistinct(xs: seq<Component>, ys: seq<Component>)
    requires SameShape(xs, ys)
  {
    var n := |xs| - 1;
    || CompareTuples(xs, ys) == Equal
    || (n >= 0 && xs[n].StringKey? && CompareTuples(xs[..n], ys[..n]) == Equal && Alias(xs[n].text, ys[n].text))
  }

  lemma StringsAlike(s: Option<seq<byte>>, t: Option<seq<byte>>)
    ensures KeyBytes(StringKey(s)) == KeyBytes(StringKey(t))
       <==> CompareValues(StringKey(s), StringKey(t)) == Equal || Alias(s, t)
  {
    if s.Some? && t.Some? { CompareEqual(s.value, t.value); }
  }

  /** Keys are equal exactly for equal values and for aliases in the last place. */
  lemma KeyInjective(xs: seq<Component>, ys: seq<Component>)
    requires SameShape(xs, ys) && StringLast(xs)
    ensures AllBytes(xs) == AllBytes(ys) <==> Indistinct(xs, ys)
  {
    if xs == [] {
    } else {
      var n := |xs| - 1;
      FixedPrefixOrder(xs[..n], ys[..n]);
      CompareEqual(AllBytes(xs[..n]), AllBytes(ys[..n]));
      PartsAlike(AllBytes(xs[..n]), AllBytes(ys[..n]), KeyBytes(xs[n]), KeyBytes(ys[n]));
      if xs[n].StringKey? {
        StringsAlike(xs[n].text, ys[n].text);
      } else {
        FixedWidthOrder(xs[n], ys[n]);
        CompareEqual(KeyBytes(xs[n]), KeyBytes(ys[n]));
      }
    }
  }

  lemma PartsAlike(a: seq<byte>, b: seq<byte>, x: seq<byte>, y: seq<byte>)
    requires |a| == |b|
    ensures a + x == b + y <==> a == b && x == y
  {
    if a + x == b + y {
      assert a == (a + x)[..|a|] && b == (b + y)[..|a|];
      assert x == (a + x)[|a|..] && y == (b + y)[|a|..];
    }
  }

  /**
   A key with a null and a key without one coincide exactly when they end in null and U+0000 after
   equal values.
   */
  lemma NullKeysCoincide(xs: seq<Component>, ys: seq<Component>)
    requires SameShape(xs, ys) && StringLast(xs) && !HasNull(xs) && HasNull(ys)
    ensures AllBytes(xs) == AllBytes(ys) <==>
              && |xs| > 0 && xs[|xs| - 1] == StringKey(Some([0])) && ys[|xs| - 1] == StringKey(None)
              && CompareTuples(xs[..|xs| - 1], ys[..|xs| - 1]) == Equal
  {
    KeyInjective(xs, ys);
    if CompareTuples(xs, ys) == Equal {
      EqualTuples(xs, ys);
      assert false;
    }
    if Indistinct(xs, ys) {
      var n := |xs| - 1;
      EqualTuples(xs[..n], ys[..n]);
      HasNullLast(xs);
      HasNullLast(ys);
    }
  }

  lemma HasNullLast(cs: seq<Component>)
    requires cs != []
    ensures HasNull(cs) <==> HasNull(cs[..|cs| - 1]) || cs[|cs| - 1].IsNull()
  {
    var n := |cs| - 1;
    if HasNull(cs[..n]) {
      var k :| 0 <= k < n && cs[..n][k].IsNull();
      assert cs[k].IsNull();
    }
    if HasNull(cs) && !cs[n].IsNull() {
      var k :| 0 <= k < |cs| && cs[k].IsNull();
      assert cs[..n][k].IsNull();
    }
  }

  /** Keys of at most 1024 bytes are stored as they are. */
  lemma ShortKeysUnchanged(cs: seq<Component>, xxh3: seq<byte> -> u64)
    ensures |AllBytes(cs)| <= MAX_INDEX_SIZE ==> Finished(AllBytes(cs), xxh3) == AllBytes(cs)
    ensures |Finished(AllBytes(cs), xxh3)| <= MAX_INDEX_SIZE
  {
  }

  /** The bytes of nulls, booleans, bytes and strings, and the widths of numbers. */
  lemma KeyForm(flag: bool, octet: byte, n: i32, wide: i64, single: u32, double: u64, text: seq<byte>)
    ensures KeyBytes(BoolKey(None)) == [0] && KeyBytes(BoolKey(Some(flag))) == [if flag then 2 else 1]
    ensures KeyBytes(ByteKey(octet)) == [octet]
    ensures KeyBytes(StringKey(None)) == [0] && KeyBytes(StringKey(Some(text))) == if text == [] then [1] else text
    ensures |KeyBytes(IntKey(n))| == |KeyBytes(FloatKey(single))| == 4
    ensures |KeyBytes(LongKey(wide))| == |KeyBytes(DoubleKey(double))| == 8
    ensures KeyBytes(IntKey(-0x8000_0000)) == [0, 0, 0, 0]
    ensures IsNan32(single) ==> KeyBytes(FloatKey(single)) == [0, 0, 0, 0]
    ensures KeyBytes(LongKey(-0x8000_0000_0000_0000)) == [0, 0, 0, 0, 0, 0, 0, 0]
    ensures IsNan64(double) ==> KeyBytes(DoubleKey(double)) == [0, 0, 0, 0, 0, 0, 0, 0]
  {
    ZeroBe(4);
    ZeroBe(8);
    assert Zeros(4) == [0, 0, 0, 0] && Zeros(8) == [0, 0, 0, 0, 0, 0, 0, 0];
  }

  /** Eight big-endian bytes determine the hash. */
  lemma HashBytes(m: u64, n: u64)
    ensures ToBe(m, 8) == ToBe(n, 8) <==> m == n
  {
    Widths();
    BigEndianOrder(m, n, 8);
    CompareEqual(ToBe(m, 8), ToBe(n, 8));
  }

  /**
   When two finished keys are the same: short ones are themselves, of overlong ones 1016 bytes and the
   hash of the whole are left, and one of each coincide if the short one is just that.
   */
  lemma FinishedExactly(a: seq<byte>, b: seq<byte>, xxh3: seq<byte> -> u64)
    ensures |a| <= 1024 && |b| <= 1024 ==> (Finished(a, xxh3) == Finished(b, xxh3) <==> a == b)
    ensures |a| > 1024 && |b| > 1024 ==>
              (Finished(a, xxh3) == Finished(b, xxh3) <==> a[..1016] == b[..1016] && xxh3(a) == xxh3(b))
    ensures |a| > 1024 && |b| <= 1024 ==>
              (Finished(a, xxh3) == Finished(b, xxh3) <==> b == a[..1016] + ToBe(xxh3(a), 8))
  {
    if |a| > 1024 && |b| > 1024 {
      HashBytes(xxh3(a), xxh3(b));
      PartsAlike(a[..1016], b[..1016], ToBe(xxh3(a), 8), ToBe(xxh3(b), 8));
    }
  }

  /** `create_key`: add the values of the indexed properties in order. */
  method CreateKey(cs: seq<Component>, hash: bool, xxh3: seq<byte> -> u64) returns (key: seq<byte>, containsNull: bool)
    ensures containsNull <==> HasNull(cs)
    ensures key == if hash then ToBe(xxh3(AllBytes(cs)), 8) else Finished(AllBytes(cs), xxh3)
  {
    var builder := new Builder.WithBuffer();
    for i := 0 to |cs|
      invariant fresh(builder) && builder.bytes == AllBytes(cs[..i])
      invariant builder.containsNull <==> HasNull(cs[..i])
    {
      builder.Add(cs[i]);
      assert cs[..i + 1][..i] == cs[..i];
      HasNullLast(cs[..i + 1]);
    }
    assert cs[..|cs|] == cs;
    if hash {
      key := ToBe(xxh3(builder.bytes), 8);
      containsNull := builder.containsNull;
    } else {
      key, containsNull := builder.Finish(xxh3);
    }
  }

  /** The component `create_key` reads for an indexed property. */
  function ComponentOf(t: DataType, v: Value): Component {
    match t
    case Bool => BoolKey(if v.Boolean? then Some(v.b) else None)
    case Byte => ByteKey(if v.Number? && 0 <= v.n < 0x100 then v.n else 0)
    case Int => IntKey(if v.Number? && NULL_INT <= v.n < TWO31 then v.n else NULL_INT)
    case Long => LongKey(if v.Number? && NULL_LONG <= v.n < TWO63 then v.n else NULL_LONG)
    case Float => FloatKey(if v.Real? && v.bits < TWO32 then v.bits else NULL_FLOAT)
    case Double => DoubleKey(if v.Real? && v.bits < TWO64 then v.bits else NULL_DOUBLE)
    case _ => StringKey(if v.Blob? then Some(v.bytes) else None)
  }
}
