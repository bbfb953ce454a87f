/** Orders: bytes lexicographically, and the comparison of index keys. */
module KeyOrder {
  import opened Bytes
  import opened LittleEndian

  datatype Ordering = Less | Equal | Greater

  function CompareInt(a: int, b: int): Ordering {
    if a < b then Less else if a == b then Equal else Greater
  }

  /** `Ord for [u8]`. */
  function CompareBytes(a: seq<byte>, b: seq<byte>): Ordering {
    if a == [] && b == [] then Equal
    else if a == [] then Less
    else if b == [] then Greater
    else if a[0] != b[0] then CompareInt(a[0], b[0])
    else CompareBytes(a[1..], b[1..])
  }

  function Min(a: nat, b: nat): nat { if a <= b then a else b }

  /** `compare_keys`: ids are little-endian integers, all other keys compare prefix first, then length. */
  function CompareKeys(integerKey: bool, a: seq<byte>, b: seq<byte>): Ordering
    requires integerKey ==> |a| >= 8 && |b| >= 8
  {
    if integerKey then CompareInt(FromLe(a[..8]), FromLe(b[..8]))
    else
      var n := Min(|a|, |b|);
      var c := CompareBytes(a[..n], b[..n]);
      if c == Equal then CompareInt(|a|, |b|) else c
  }

  lemma {:induction false} CompareEqual(a: seq<byte>, b: seq<byte>)
    ensures CompareBytes(a, b) == Equal <==> a == b
  {
    if a != [] && b != [] {
      CompareEqual(a[1..], b[1..]);
      assert a == [a[0]] + a[1..] && b == [b[0]] + b[1..];
    }
  }

  lemma {:induction false} CompareFlip(a: seq<byte>, b: seq<byte>)
    ensures CompareBytes(a, b) == Less <==> CompareBytes(b, a) == Greater
  {
    if a != [] && b != [] { CompareFlip(a[1..], b[1..]); }
  }

  lemma {:induction false} CompareTransitive(a: seq<byte>, b: seq<byte>, c: seq<byte>)
    requires CompareBytes(a, b) != Greater && CompareBytes(b, c) != Greater
    ensures CompareBytes(a, c) != Greater
    ensures CompareBytes(a, b) == Less || CompareBytes(b, c) == Less ==> CompareBytes(a, c) == Less
  {
    if a != [] && b != [] && c != [] && a[0] == b[0] == c[0] {
      CompareTransitive(a[1..], b[1..], c[1..]);
    }
  }

  /** A common prefix does not matter. */
  lemma {:induction false} ComparePrefix(p: seq<byte>, a: seq<byte>, b: seq<byte>)
    ensures CompareBytes(p + a, p + b) == CompareBytes(a, b)
  {
    if p == [] {
      assert p + a == a && p + b == b;
    } else {
      assert (p + a)[1..] == p[1..] + a && (p + b)[1..] == p[1..] + b;
      ComparePrefix(p[1..], a, b);
    }
  }

  /** Different heads of equal length decide. */
  lemma {:induction false} CompareHeads(a: seq<byte>, b: seq<byte>, x: seq<byte>, y: seq<byte>)
    requires |a| == |b| && a != b
    ensures CompareBytes(a + x, b + y) == CompareBytes(a, b)
  {
    assert (a + x)[1..] == a[1..] + x && (b + y)[1..] == b[1..] + y;
    if a[0] == b[0] {
      assert a == [a[0]] + a[1..] && b == [b[0]] + b[1..];
      CompareHeads(a[1..], b[1..], x, y);
    }
  }

  /** The prefix-then-length comparison of byte keys is the lexicographic order. */
  lemma {:induction false} CompareKeysIsLexicographic(a: seq<byte>, b: seq<byte>)
    ensures CompareKeys(false, a, b) == CompareBytes(a, b)
  {
    var n := Min(|a|, |b|);
    var x, y := a[n..], b[n..];
    assert a == a[..n] + x && b == b[..n] + y;
    CompareEqual(a[..n], b[..n]);
    if a[..n] == b[..n] {
      ComparePrefix(a[..n], x, y);
    } else {
      CompareHeads(a[..n], b[..n], x, y);
    }
  }

  // ----- big-endian numbers

  function ToBe(n: nat, k: nat): (r: seq<byte>)
    ensures |r| == k
  {
    if k == 0 then [] else ToBe(n / 256, k - 1) + [n % 256]
  }

  /** Big-endian bytes of equal width compare like the numbers. */
  lemma {:induction false} BigEndianOrder(a: nat, b: nat, k: nat)
    requires a < Pow256(k) && b < Pow256(k)
    ensures CompareBytes(ToBe(a, k), ToBe(b, k)) == CompareInt(a, b)
  {
    if k == 0 {
    } else {
      var x, y := ToBe(a / 256, k - 1), ToBe(b / 256, k - 1);
      BigEndianOrder(a / 256, b / 256, k - 1);
      CompareEqual(x, y);
      if x == y {
        ComparePrefix(x, [a % 256], [b % 256]);
        OneByte(a % 256, b % 256);
      } else {
        CompareHeads(x, y, [a % 256], [b % 256]);
      }
    }
  }

  lemma OneByte(a: byte, b: byte)
    ensures CompareBytes([a], [b]) == CompareInt(a, b)
  {
    var none: seq<byte> := [];
    assert [a][1..] == none && [b][1..] == none;
  }

  // ----- object ids

  /** `to_id_bytes`: the sign bit flipped, little-endian, as the key of an integer database. */
  function ToIdBytes(id: i64): (r: seq<byte>)
    ensures |r| == 8
  {
    ToLe(FlipSign64(Unsigned64(id)), IdWidth())
  }

  function IdWidth(): nat { 8 }

  /** `n ^ 1 << 63`. */
  function FlipSign64(n: u64): u64 { if n < TWO63 then n + TWO63 else n - TWO63 }

  /** `to_id`. */
  function ToId(bytes: seq<byte>): i64
    requires |bytes| == 8
  {
    Widths();
    Signed64(FlipSign64(FromLe(bytes)))
  }

  /** Ids and their keys are in one-to-one, order preserving correspondence. */
  lemma IdKeys(a: i64, b: i64)
    ensures ToId(ToIdBytes(a)) == a
    ensures CompareKeys(true, ToIdBytes(a), ToIdBytes(b)) == CompareInt(a, b)
  {
    Widths();
    LeRoundTrip(FlipSign64(Unsigned64(a)), IdWidth());
    LeRoundTrip(FlipSign64(Unsigned64(b)), IdWidth());
    assert ToIdBytes(a)[..8] == ToIdBytes(a) && ToIdBytes(b)[..8] == ToIdBytes(b);
  }

  lemma IdKeysInverse(bytes: seq<byte>)
    requires |bytes| == 8
    ensures ToIdBytes(ToId(bytes)) == bytes
  {
    Widths();
    LeInverse(bytes);
    assert FlipSign64(Unsigned64(ToId(bytes))) == FromLe(bytes);
  }
}
