/**
 Doubles as a comparison sees them: where integers and singles, converted to a double, lie among them.
 Formats and rounding are those of sections 3.4 and 4.3.1 of IEEE 754-2008.
 */
module Doubles {
  import opened LittleEndian
  import opened KeyOrder
  import opened Deserializer
  import opened IndexKeyOrder

  const INFINITY: u64 := 0x7FF0_0000_0000_0000
  const INFINITY32: u32 := 0x7F80_0000

  /** The place of a double that is no NaN; both zeros have the same. */
  function Rank(bits: u64): int { if bits < TWO63 then bits else TWO63 - bits }

  /** Places are ordered like the values. */
  lemma RankIsOrder(a: u64, b: u64)
    ensures CompareInt(Rank(a), Rank(b)) == CompareInt(FloatValue(DOUBLE, TWO63, a), FloatValue(DOUBLE, TWO63, b))
  {
    var x, y := if a < TWO63 then a else a - TWO63, if b < TWO63 then b else b - TWO63;
    MagnitudeZero(x);
    MagnitudeZero(y);
    if x < y { MagnitudeGrows(DOUBLE, x, y); }
    if y < x { MagnitudeGrows(DOUBLE, y, x); }
  }

  lemma MagnitudeZero(x: nat)
    ensures Magnitude(DOUBLE, x) == 0 <==> x == 0
  {
    assert Magnitude(DOUBLE, 0) == 0;
    if x > 0 { MagnitudeGrows(DOUBLE, 0, x); }
  }

  // ----- significand and exponent

  /** The pattern for `n` in units of exponent field `e`, normalized; a carry moves on by itself. */
  function Normal(n: nat, e: nat): int
    requires 0 < n && 0 < e
    decreases e
  {
    if n >= DOUBLE || e == 1 then (e - 1) * DOUBLE + n else Normal(2 * n, e - 1)
  }

  lemma {:induction false} NormalBelow(n: nat, e: nat)
    requires 0 < n < DOUBLE && 0 < e
    ensures 0 < Normal(n, e) < e * DOUBLE
    decreases e
  {
    if e > 1 && 2 * n < DOUBLE {
      NormalBelow(2 * n, e - 1);
    }
  }

  lemma {:induction false} NormalGrows(m: nat, n: nat, e: nat)
    requires 0 < m < n && 0 < e
    ensures 0 < Normal(m, e) < Normal(n, e)
    decreases e
  {
    if m < DOUBLE {
      NormalBelow(m, e);
      if n < DOUBLE && e > 1 {
        NormalGrows(2 * m, 2 * n, e - 1);
      }
    }
  }

  /** The number a pattern stands for, in units of the smallest subnormal. */
  lemma {:induction false} NormalValue(n: nat, e: nat)
    requires 0 < n <= 2 * DOUBLE && 0 < e
    ensures Normal(n, e) >= 0 && Magnitude(DOUBLE, Normal(n, e)) == n * Pow2(e - 1)
    decreases e
  {
    if n >= DOUBLE {
      if n == 2 * DOUBLE {
        assert Normal(n, e) == (e + 1) * DOUBLE;
        assert FromParts(DOUBLE, e + 1, 0) == DOUBLE * Pow2(e) == (2 * DOUBLE) * Pow2(e - 1);
      } else {
        PartsOf(e, n - DOUBLE);
      }
    } else if e == 1 {
      assert Pow2(0) == 1;
    } else {
      NormalValue(2 * n, e - 1);
      Doubled(n, Pow2(e - 2));
    }
  }

  lemma PartsOf(e: nat, f: nat)
    requires f < DOUBLE
    ensures (e * DOUBLE + f) / DOUBLE == e && (e * DOUBLE + f) % DOUBLE == f
  {
  }

  lemma Doubled(n: nat, w: nat)
    ensures (2 * n) * w == n * (2 * w)
  {
  }

  // ----- integers

  /** How often `n` has to be halved to have no more bits than a significand. */
  function Shift(n: nat): nat { if n < 2 * DOUBLE then 0 else 1 + Shift(n / 2) }

  /** `n / w`, rounded to nearest, ties to even. */
  function Nearest(n: nat, w: nat): nat
    requires w > 0
  {
    var q, r := n / w, n % w;
    if 2 * r < w || (2 * r == w && q % 2 == 0) then q else q + 1
  }

  /** The significand `n` is rounded to. */
  function Significand(n: nat): nat { Nearest(n, Pow2(Shift(n))) }

  /** The exponent field of the doubles from 2^52 on, whose neighbours are one apart. */
  const WHOLE: nat := 1075

  /** The pattern `n as f64` has if `whole` is that field. */
  function Pattern(n: nat, whole: nat): int
    requires whole > 0
  {
    if Significand(n) == 0 then 0 else Normal(Significand(n), whole + Shift(n))
  }

  /** The place of an integer. */
  function IntegerRank(n: int): int { if n >= 0 then Pattern(n, WHOLE) else 0 - Pattern(0 - n, WHOLE) }

  lemma {:induction false} ShiftBounds(n: nat)
    ensures n < 2 * DOUBLE * Pow2(Shift(n))
    ensures Shift(n) > 0 ==> DOUBLE * Pow2(Shift(n)) <= n
  {
    if n < 2 * DOUBLE {
    } else {
      ShiftBounds(n / 2);
    }
  }

  lemma {:induction false} ShiftGrows(m: nat, n: nat)
    requires m <= n
    ensures Shift(m) <= Shift(n)
  {
    if m < 2 * DOUBLE {
    } else {
      ShiftGrows(m / 2, n / 2);
    }
  }

  lemma QuotientBounds(n: nat, w: nat, a: nat, b: nat)
    requires w > 0 && a * w <= n < b * w
    ensures a <= n / w < b
  {
    Division(n, w);
    if n / w < a { MulMonotone(w, n / w + 1, a); }
    if n / w >= b { MulMonotone(w, b, n / w); }
  }

  lemma NearestGrows(m: nat, n: nat, w: nat)
    requires w > 0 && m <= n
    ensures Nearest(m, w) <= Nearest(n, w)
  {
    if m < n { QuotientsGrow(w, m, n); }
  }

  lemma SignificandBounds(n: nat)
    ensures Significand(n) <= 2 * DOUBLE
    ensures if Shift(n) == 0 then Significand(n) == n else DOUBLE <= Significand(n)
  {
    ShiftBounds(n);
    var w := Pow2(Shift(n));
    QuotientBounds(n, w, 0, 2 * DOUBLE);
    if Shift(n) == 0 {
      assert w == 1;
    } else {
      QuotientBounds(n, w, DOUBLE, 2 * DOUBLE);
    }
  }

  /** A larger integer has no smaller double. */
  lemma PatternGrows(m: nat, n: nat, whole: nat)
    requires m <= n && whole > 0
    ensures 0 <= Pattern(m, whole) <= Pattern(n, whole)
  {
    ShiftGrows(m, n);
    SignificandBounds(m);
    SignificandBounds(n);
    var e, x, y := whole + Shift(m), Significand(m), Significand(n);
    if x > 0 {
      UpperEnd(x, e);
      if Shift(m) == Shift(n) {
        NearestGrows(m, n, Pow2(Shift(m)));
        if x < y { NormalGrows(x, y, e); }
      } else {
        MulMonotone(DOUBLE, e + 1, whole + Shift(n));
      }
    } else if y > 0 {
      UpperEnd(y, whole + Shift(n));
    }
  }

  lemma UpperEnd(n: nat, e: nat)
    requires 0 < n <= 2 * DOUBLE && 0 < e
    ensures 0 < Normal(n, e) <= (e + 1) * DOUBLE
  {
    if n < DOUBLE { NormalBelow(n, e); }
  }

  /** The converted integer is the integer rounded to a multiple of a power of two, ties to even. */
  lemma PatternValue(n: nat, whole: nat)
    requires whole > 0
    ensures Pattern(n, whole) >= 0
    ensures Magnitude(DOUBLE, Pattern(n, whole)) == Significand(n) * Pow2(whole + Shift(n) - 1)
  {
    SignificandBounds(n);
    if Significand(n) > 0 {
      NormalValue(Significand(n), whole + Shift(n));
    } else {
      assert Magnitude(DOUBLE, 0) == 0;
    }
  }

  lemma IntegerRankGrows(m: int, n: int)
    requires m <= n
    ensures IntegerRank(m) <= IntegerRank(n)
  {
    if 0 <= m {
      PatternGrows(m, n, WHOLE);
    } else if n < 0 {
      PatternGrows(0 - n, 0 - m, WHOLE);
    } else {
      PatternGrows(0, n, WHOLE);
      PatternGrows(0, 0 - m, WHOLE);
    }
  }

  /** The first integer of a range whose double is not below `r`; `hi + 1` if there is none. */
  function First(r: int, lo: int, hi: int): (n: int)
    requires lo <= hi + 1
    ensures lo <= n <= hi + 1
    ensures forall m :: lo <= m < n ==> IntegerRank(m) < r
    ensures n <= hi ==> IntegerRank(n) >= r
    decreases hi + 1 - lo
  {
    if lo > hi then lo
    else
      var mid := (lo + hi) / 2;
      if IntegerRank(mid) >= r then
        First(r, lo, mid - 1)
      else
        assert forall m :: lo <= m <= mid ==> IntegerRank(m) < r by {
          forall m | lo <= m <= mid ensures IntegerRank(m) < r {
            IntegerRankGrows(m, mid);
          }
        }
        First(r, mid + 1, hi)
  }

  /** Some integer of a range is, as a double, between `l` and `u`. */
  predicate Reaches(l: int, u: int, lo: int, hi: int)
    requires lo <= hi + 1
  {
    First(l, lo, hi) <= hi && IntegerRank(First(l, lo, hi)) <= u
  }

  lemma ReachesExactly(l: int, u: int, lo: int, hi: int)
    requires lo <= hi + 1
    ensures Reaches(l, u, lo, hi) <==> exists n :: lo <= n <= hi && l <= IntegerRank(n) <= u
  {
    var first := First(l, lo, hi);
    if n :| lo <= n <= hi && l <= IntegerRank(n) <= u {
      assert first <= n;
      IntegerRankGrows(first, n);
    }
  }

  // ----- an example

  lemma {:induction false} Normalized(n: nat, e: nat, k: nat)
    requires 0 < n && k < e && (k > 0 ==> n * Pow2(k - 1) < DOUBLE)
    ensures n * Pow2(k) > 0 && Normal(n, e) == Normal(n * Pow2(k), e - k)
  {
    if k == 0 {
      assert Pow2(0) == 1;
    } else {
      if k > 1 { MulMonotone(n, Pow2(k - 2), Pow2(k - 1)); }
      Normalized(n, e, k - 1);
      assert n * Pow2(k) == 2 * (n * Pow2(k - 1));
    }
  }

  lemma TwoToFifty()
    ensures Pow2(50 - 1) == 0x2_0000_0000_0000 && Pow2(50) == 0x4_0000_0000_0000
  {
    assert Pow2(5) == 32;
    Pow2Sum(5, 5);
    Pow2Sum(10, 10);
    Pow2Sum(20, 20);
    Pow2Sum(40, 10);
    assert Pow2(50) == 2 * Pow2(50 - 1);
  }

  /** 5.0 */
  lemma FiveAsDouble()
    ensures IntegerRank(5) == Rank(0x4014_0000_0000_0000)
  {
    assert Shift(5) == 0 && Pow2(0) == 1;
    assert Significand(5) == 5;
    TwoToFifty();
    Normalized(5, WHOLE, 50);
  }

  // ----- singles

  /** The exponent field of doubles that goes with the subnormal singles. */
  const SUBNORMAL32: nat := 897

  /** The magnitude of a single, as the pattern of a double. */
  function Widened(m: nat, subnormal: nat): int
    requires subnormal > 0
  {
    var e, f := m / SINGLE, m % SINGLE;
    if m == 0 then 0
    else if m >= INFINITY32 then INFINITY + (m - INFINITY32)
    else if e == 0 then Normal(f * 0x2000_0000, subnormal)
    else Normal((SINGLE + f) * 0x2000_0000, subnormal + e - 1)
  }

  /** The place of a single. */
  function SingleRank(bits: u32): int {
    if bits < TWO31 then Widened(bits, SUBNORMAL32) else 0 - Widened(bits - TWO31, SUBNORMAL32)
  }

  lemma WidenedEnd(m: nat)
    requires 0 < m < INFINITY32
    ensures var e := if m / SINGLE == 0 then SUBNORMAL32 else SUBNORMAL32 + m / SINGLE - 1;
            && 0 < Widened(m, SUBNORMAL32) < (e + 1) * DOUBLE
            && (m >= SINGLE ==> e * DOUBLE <= Widened(m, SUBNORMAL32))
  {
    var e, f := m / SINGLE, m % SINGLE;
    if e == 0 {
      if f * 0x2000_0000 < DOUBLE { NormalBelow(f * 0x2000_0000, SUBNORMAL32); }
    }
  }

  /** Singles keep their order. */
  lemma WidenedGrows(a: nat, b: nat)
    requires a < b <= INFINITY32
    ensures 0 <= Widened(a, SUBNORMAL32) < Widened(b, SUBNORMAL32)
  {
    if b < INFINITY32 { WidenedEnd(b); }
    if a > 0 {
      WidenedEnd(a);
      if b < INFINITY32 {
        QuotientsGrow(SINGLE, a, b);
        var e := if a / SINGLE == 0 then SUBNORMAL32 else SUBNORMAL32 + a / SINGLE - 1;
        if b / SINGLE <= 1 || a / SINGLE == b / SINGLE {
          var x := if a / SINGLE == 0 then a % SINGLE else SINGLE + a % SINGLE;
          var y := if b / SINGLE == 0 then b % SINGLE else SINGLE + b % SINGLE;
          NormalGrows(x * 0x2000_0000, y * 0x2000_0000, e);
        }
      }
    }
  }

  /** And their value: one unit of a single is 2^29 units of the exponent before. */
  lemma WidenedValue(m: nat, subnormal: nat)
    requires m < INFINITY32 && subnormal > 0
    ensures Widened(m, subnormal) >= 0
    ensures Magnitude(DOUBLE, Widened(m, subnormal)) == 0x2000_0000 * (Magnitude(SINGLE, m) * Pow2(subnormal - 1))
  {
    var e, f := m / SINGLE, m % SINGLE;
    if m == 0 {
      MagnitudeZero(0);
    } else if e == 0 {
      NormalValue(f * 0x2000_0000, subnormal);
      Regroup(f, 1, Pow2(subnormal - 1));
    } else {
      NormalValue((SINGLE + f) * 0x2000_0000, subnormal + e - 1);
      Pow2Sum(e - 1, subnormal - 1);
      Regroup(SINGLE + f, Pow2(e - 1), Pow2(subnormal - 1));
    }
  }

  lemma {:induction false} Pow2Sum(a: nat, b: nat)
    ensures Pow2(a + b) == Pow2(a) * Pow2(b)
  {
    if a == 0 {
      assert Pow2(0) == 1;
    } else {
      Pow2Sum(a - 1, b);
      Doubled(Pow2(a - 1), Pow2(b));
    }
  }

  lemma Regroup(s: nat, a: nat, b: nat)
    ensures (s * 0x2000_0000) * (a * b) == 0x2000_0000 * ((s * a) * b)
  {
    assert (s * a) * b == s * (a * b);
  }

  /** The place of a single among singles. */
  function Place(bits: u32): int { if bits < TWO31 then bits else TWO31 - bits }

  /** Both ways of comparing singles agree. */
  lemma SinglesCompare(a: u32, b: u32)
    requires !IsNan32(a) && !IsNan32(b)
    ensures CompareInt(SingleRank(a), SingleRank(b)) == CompareInt(Place(a), Place(b))
  {
    var x, y := if a < TWO31 then a else a - TWO31, if b < TWO31 then b else b - TWO31;
    if x > 0 { WidenedGrows(0, x); }
    if y > 0 { WidenedGrows(0, y); }
    if x < y { WidenedGrows(x, y); }
    if y < x { WidenedGrows(y, x); }
  }

  /** `f32::next_up` */
  function NextUp(bits: u32): u32 {
    if IsNan32(bits) || bits == INFINITY32 then bits
    else if bits == 0 || bits == TWO31 then 1
    else if bits < TWO31 then bits + 1
    else bits - 1
  }

  lemma NextUpIsNext(s: u32)
    requires !IsNan32(s) && s != INFINITY32
    ensures !IsNan32(NextUp(s)) && Place(NextUp(s)) == Place(s) + 1
  {
  }
}
