/**
 The native backend evaluates "starts with" as a range of byte strings: from the prefix to the prefix
 followed by the largest character.
 */
module PrefixRange {
  import opened Bytes
  import opened KeyOrder
  import opened LikePatterns
  import opened Utf8Wild

  /** `IsarValue::MAX_STRING`. */
  const MAX_SCALAR: Scalar := 0x10FFFF

  /** Characters compare like their UTF-8 forms. */
  function CompareScalars(a: seq<Scalar>, b: seq<Scalar>): Ordering {
    if a == [] && b == [] then Equal
    else if a == [] then Less
    else if b == [] then Greater
    else if a[0] != b[0] then CompareInt(a[0], b[0])
    else CompareScalars(a[1..], b[1..])
  }

  lemma Digits(c: nat)
    ensures c == c / 0x40 * 0x40 + c % 0x40 && c % 0x40 < 0x40
  {
  }

  /** Dividing keeps the order, unless it leaves it to the remainders. */
  lemma DigitOrder(c: nat, d: nat)
    requires c < d
    ensures c / 0x40 < d / 0x40 || (c / 0x40 == d / 0x40 && c % 0x40 < d % 0x40)
  {
    Digits(c);
    Digits(d);
  }

  lemma OneByteMore(a: seq<byte>, b: seq<byte>, x: byte, y: byte)
    requires |a| == |b|
    requires CompareBytes(a, b) == Less || (a == b && x < y)
    ensures CompareBytes(a + [x], b + [y]) == Less
  {
    CompareEqual(a, b);
    if a == b {
      ComparePrefix(a, [x], [y]);
      OneByte(x, y);
    } else {
      CompareHeads(a, b, [x], [y]);
    }
  }

  /** The bytes of the first `k` six-bit digits. */
  function Lead(base: nat, c: nat, k: nat): (r: seq<byte>)
    requires base + Shifted(c, k) < 0x100
    ensures |r| == k + 1
    decreases k
  {
    if k == 0 then [base + c] else Lead(base, c / 0x40, k - 1) + Continuation(c)
  }

  function Shifted(c: nat, k: nat): nat { if k == 0 then c else Shifted(c / 0x40, k - 1) }

  lemma {:induction false} LeadOrder(base: nat, c: nat, d: nat, k: nat)
    requires base + Shifted(c, k) < 0x100 && base + Shifted(d, k) < 0x100 && c <= d
    ensures c == d || CompareBytes(Lead(base, c, k), Lead(base, d, k)) == Less
    decreases k
  {
    if c < d {
      if k == 0 {
        OneByte(base + c, base + d);
      } else {
        DigitOrder(c, d);
        LeadOrder(base, c / 0x40, d / 0x40, k - 1);
        OneByteMore(Lead(base, c / 0x40, k - 1), Lead(base, d / 0x40, k - 1), 0x80 + c % 0x40, 0x80 + d % 0x40);
      }
    }
  }

  /** The UTF-8 form as a lead byte and continuation bytes. */
  function Extra(c: Scalar): nat { if c < 0x80 then 0 else if c < 0x800 then 1 else if c < 0x10000 then 2 else 3 }

  function LeadBase(k: nat): nat { if k == 0 then 0 else if k == 1 then 0xC0 else if k == 2 then 0xE0 else 0xF0 }

  lemma Utf8IsLead(c: Scalar)
    ensures LeadBase(Extra(c)) + Shifted(c, Extra(c)) < 0x100
    ensures Utf8Of(c) == Lead(LeadBase(Extra(c)), c, Extra(c))
  {
    var base := LeadBase(Extra(c));
    var q := c / 0x40;
    var p := q / 0x40;
    if Extra(c) == 1 {
      assert Shifted(c, 1) == Shifted(q, 0);
      assert Lead(base, c, 1) == Lead(base, q, 0) + Continuation(c);
    } else if Extra(c) == 2 {
      assert Shifted(c, 2) == Shifted(q, 1) == Shifted(p, 0);
      assert Lead(base, c, 2) == Lead(base, q, 1) + Continuation(c);
      assert Lead(base, q, 1) == Lead(base, p, 0) + Continuation(q);
    } else if Extra(c) == 3 {
      assert Shifted(c, 3) == Shifted(q, 2) == Shifted(p, 1) == Shifted(p / 0x40, 0);
      assert Lead(base, c, 3) == Lead(base, q, 2) + Continuation(c);
      assert Lead(base, q, 2) == Lead(base, p, 1) + Continuation(q);
      assert Lead(base, p, 1) == Lead(base, p / 0x40, 0) + Continuation(p);
    }
  }

  lemma ScalarOrder(c: Scalar, d: Scalar, x: seq<byte>, y: seq<byte>)
    requires c < d
    ensures CompareBytes(Utf8Of(c) + x, Utf8Of(d) + y) == Less
  {
    Utf8IsLead(c);
    Utf8IsLead(d);
    if Extra(c) == Extra(d) {
      LeadOrder(LeadBase(Extra(c)), c, d, Extra(c));
      CompareEqual(Utf8Of(c), Utf8Of(d));
      CompareHeads(Utf8Of(c), Utf8Of(d), x, y);
    } else {
      LeadsDiffer(c, d);
      assert (Utf8Of(c) + x)[0] == Utf8Of(c)[0] && (Utf8Of(d) + y)[0] == Utf8Of(d)[0];
    }
  }

  lemma LeadsDiffer(c: Scalar, d: Scalar)
    requires Extra(c) < Extra(d)
    ensures Utf8Of(c)[0] < Utf8Of(d)[0]
  {
  }

  /** UTF-8 keeps the order of characters. */
  lemma {:induction false} Utf8Order(a: seq<Scalar>, b: seq<Scalar>)
    ensures CompareBytes(Utf8(a), Utf8(b)) == CompareScalars(a, b)
  {
    if a != [] && b != [] {
      if a[0] == b[0] {
        ComparePrefix(Utf8Of(a[0]), Utf8(a[1..]), Utf8(b[1..]));
        Utf8Order(a[1..], b[1..]);
      } else if a[0] < b[0] {
        ScalarOrder(a[0], b[0], Utf8(a[1..]), Utf8(b[1..]));
      } else {
        ScalarOrder(b[0], a[0], Utf8(b[1..]), Utf8(a[1..]));
        CompareFlip(Utf8(b), Utf8(a));
      }
    }
  }

  /** The range of `StringStartsWith` on the bytes of a value. */
  predicate InPrefixRange(prefix: seq<Scalar>, s: seq<Scalar>) {
    && CompareBytes(Utf8(prefix), Utf8(s)) != Greater
    && CompareBytes(Utf8(s), Utf8(prefix + [MAX_SCALAR])) != Greater
  }

  /** The value goes on after the prefix and the largest character. */
  predicate BeyondRange(prefix: seq<Scalar>, s: seq<Scalar>) {
    |s| > |prefix| + 1 && s[|prefix|] == MAX_SCALAR
  }

  lemma {:induction false} ScalarRange(prefix: seq<Scalar>, s: seq<Scalar>)
    ensures CompareScalars(prefix, s) != Greater && CompareScalars(s, prefix + [MAX_SCALAR]) != Greater
       <==> prefix <= s && !BeyondRange(prefix, s)
  {
    if prefix == [] {
      assert prefix + [MAX_SCALAR] == [MAX_SCALAR];
      if s != [] && s[0] == MAX_SCALAR {
        assert [MAX_SCALAR][1..] == [];
      }
    } else if s != [] {
      assert (prefix + [MAX_SCALAR])[1..] == prefix[1..] + [MAX_SCALAR];
      if prefix[0] == s[0] {
        ScalarRange(prefix[1..], s[1..]);
        assert prefix <= s <==> prefix[1..] <= s[1..];
      }
    }
  }

  /** The range holds exactly the strings with the prefix, short of those behind the largest character. */
  lemma StartsWithExact(prefix: seq<Scalar>, s: seq<Scalar>)
    ensures InPrefixRange(prefix, s) <==> prefix <= s && !BeyondRange(prefix, s)
  {
    Utf8Order(prefix, s);
    Utf8Order(s, prefix + [MAX_SCALAR]);
    ScalarRange(prefix, s);
  }

  /** Both backends agree on a prefix exactly for the strings that are not behind the largest character. */
  lemma BackendsAgreeOnPrefix(prefix: seq<Scalar>, s: seq<Scalar>)
    ensures ValidPattern(StartsWithPattern(prefix))
    ensures (InPrefixRange(prefix, s) <==> Like(s, StartsWithPattern(prefix)))
        <==> !(prefix <= s && BeyondRange(prefix, s))
  {
    StartsWithExact(prefix, s);
    LikeStartsWith(s, prefix);
  }
}
