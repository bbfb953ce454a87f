/**
 Conditions on strings as native ranges of byte strings. An exclusive bound is moved to the character
 before or after, which is the plain comparison only up to what goes on behind it.
 */
module StringRanges {
  import opened Bytes
  import opened KeyOrder
  import opened Utf8Wild
  import opened PrefixRange

  type Text = seq<Scalar>

  datatype Comparison = EqualTo | GreaterThan | AtLeast | LessThan | AtMost

  // ----- the native range

  /** `string_between`, case sensitive. */
  predicate StringBetween(v: Option<Text>, lower: Option<Text>, upper: Option<Text>) {
    match v
    case Some(s) =>
      && (lower.Some? ==> CompareBytes(Utf8(lower.value), Utf8(s)) != Greater)
      && upper.Some? && CompareBytes(Utf8(upper.value), Utf8(s)) != Less
    case None => lower.None?
  }

  /** `char::from_u32` */
  predicate IsScalar(n: int) { 0 <= n <= MAX_SCALAR && !(0xD800 <= n < 0xE000) }

  /** The string with its last character moved by `step`. */
  function Moved(s: Text, step: int): Option<Text>
    requires s != []
  {
    var c: int := s[|s| - 1];
    if IsScalar(c + step) then Some(s[..|s| - 1] + [c + step]) else None
  }

  /** The outer None aborts the condition. */
  function LowerBound(op: Option<Text>, inclusive: bool): Option<Option<Text>> {
    match op
    case Some(s) =>
      if inclusive then Some(Some(s))
      else if s == [] then Some(Some([0]))
      else if Moved(s, 1).Some? then Some(Moved(s, 1))
      else None
    case None => if inclusive then Some(None) else Some(Some([]))
  }

  function UpperBound(op: Option<Text>, inclusive: bool): Option<Option<Text>> {
    match op
    case Some(s) =>
      if inclusive then Some(Some(s))
      else if s == [] then Some(None)
      else if s[|s| - 1] == 0 then Some(Some(s[..|s| - 1]))
      else if Moved(s, -1).Some? then Some(Moved(s, -1))
      else None
    case None => if inclusive then Some(None) else None
  }

  predicate InRange(lower: Option<Option<Text>>, upper: Option<Option<Text>>, v: Option<Text>) {
    lower.Some? && upper.Some? && StringBetween(v, lower.value, upper.value)
  }

  predicate Native(c: Comparison, op: Option<Text>, v: Option<Text>) {
    var max := Some(Some([MAX_SCALAR]));
    match c
    case EqualTo => InRange(LowerBound(op, true), UpperBound(op, true), v)
    case GreaterThan => InRange(LowerBound(op, false), max, v)
    case AtLeast => InRange(LowerBound(op, true), max, v)
    case LessThan => InRange(Some(None), UpperBound(op, false), v)
    case AtMost => InRange(Some(None), UpperBound(op, true), v)
  }

  // ----- the comparison on JSON

  predicate Compared(c: Comparison, op: Option<Text>, v: Option<Text>) {
    match (c, v, op)
    case (EqualTo, _, _) => v == op
    case (GreaterThan, _, None) => v.Some?
    case (GreaterThan, Some(s), Some(t)) => CompareBytes(Utf8(s), Utf8(t)) == Greater
    case (AtLeast, _, None) => true
    case (AtLeast, Some(s), Some(t)) => CompareBytes(Utf8(s), Utf8(t)) != Less
    case (LessThan, None, _) => op.Some?
    case (LessThan, Some(s), Some(t)) => CompareBytes(Utf8(s), Utf8(t)) == Less
    case (AtMost, None, _) => true
    case (AtMost, Some(s), Some(t)) => CompareBytes(Utf8(s), Utf8(t)) != Greater
    case _ => false
  }

  predicate Between(lower: Option<Text>, upper: Option<Text>, v: Option<Text>) {
    match (lower, v, upper)
    case (None, _, _) => Compared(AtMost, upper, v)
    case (Some(l), Some(s), Some(u)) =>
      CompareBytes(Utf8(s), Utf8(l)) != Less && CompareBytes(Utf8(s), Utf8(u)) != Greater
    case _ => false
  }

  // ----- where they differ

  /** The string goes on behind the largest character, or starts with it and is not alone. */
  predicate BeyondMax(s: Text) { |s| > 1 && s[0] == MAX_SCALAR }

  predicate GoesOn(s: Text, t: Text) { t < s }

  /** The last character has none behind it: U+D7FF comes before the surrogates, U+10FFFF is the largest. */
  predicate NoneBehind(t: Text) { t != [] && (t[|t| - 1] == 0xD7FF || t[|t| - 1] == 0x10_FFFF) }

  /** U+E000 comes after the surrogates. */
  predicate NoneBefore(t: Text) { t != [] && t[|t| - 1] == 0xE000 }

  /** The string goes on behind the one that ends in the character before. */
  predicate GoesOnBefore(s: Text, t: Text) {
    var n := |t| - 1;
    n >= 0 && t[n] > 0 && |s| > n + 1 && s[..n] == t[..n] && s[n] as int == t[n] as int - 1
  }

  /** Strings on which the range of a condition differs from the comparison. */
  predicate Misses(c: Comparison, op: Option<Text>, v: Option<Text>) {
    match (c, op, v)
    case (GreaterThan, None, Some(s)) => BeyondMax(s)
    case (GreaterThan, Some(t), Some(s)) =>
      && Compared(c, op, v)
      && (BeyondMax(s) || NoneBehind(t) || (t != [] && GoesOn(s, t)))
    case (AtLeast, _, Some(s)) => Compared(c, op, v) && BeyondMax(s)
    case (LessThan, Some(t), Some(s)) =>
      && Compared(c, op, v)
      && (NoneBefore(t) || GoesOnBefore(s, t))
    case (LessThan, Some(t), None) => NoneBefore(t)
    case _ => false
  }

  lemma Scalars(s: Text, t: Text)
    ensures CompareBytes(Utf8(s), Utf8(t)) == CompareScalars(s, t)
    ensures CompareScalars(s, t) == Equal <==> s == t
    ensures CompareScalars(s, t) == Less <==> CompareScalars(t, s) == Greater
  {
    Utf8Order(s, t);
    Utf8Order(t, s);
    CompareFlip(Utf8(s), Utf8(t));
    ScalarsEqual(s, t);
  }

  lemma {:induction false} ScalarsEqual(s: Text, t: Text)
    ensures CompareScalars(s, t) == Equal <==> s == t
  {
    if s != [] && t != [] {
      ScalarsEqual(s[1..], t[1..]);
      assert s == [s[0]] + s[1..] && t == [t[0]] + t[1..];
    }
  }

  lemma BeyondMaxIs(s: Text)
    ensures BeyondMax(s) <==> CompareScalars(s, [MAX_SCALAR]) == Greater
  {
    var none: Text := [];
    assert [MAX_SCALAR][1..] == none;
  }

  lemma OneCharacter(c: Scalar, d: Scalar, s: Text)
    requires d == c + 1
    ensures CompareScalars(s, [] + [c]) == Greater && CompareScalars(s, [] + [d]) == Less <==> GoesOn(s, [] + [c])
  {
    var none: Text := [];
    assert none + [c] == [c] && none + [d] == [d] && [c][1..] == none && [d][1..] == none;
    if s != [] {
      assert s == [s[0]] + s[1..];
      if s[0] == c { assert CompareScalars(s, [c]) == CompareScalars(s[1..], none); }
      if s[0] == d { assert CompareScalars(s, [d]) == CompareScalars(s[1..], none); }
    }
  }

  /** Between a string and the one with the next last character there is what goes on behind it. */
  lemma {:induction false} OneStep(init: Text, c: Scalar, d: Scalar, s: Text)
    requires d == c + 1
    ensures CompareScalars(s, init + [c]) == Greater && CompareScalars(s, init + [d]) == Less <==> GoesOn(s, init + [c])
  {
    if init == [] {
      OneCharacter(c, d, s);
    } else {
      assert (init + [c])[1..] == init[1..] + [c] && (init + [d])[1..] == init[1..] + [d];
      if s != [] && s[0] == init[0] {
        OneStep(init[1..], c, d, s[1..]);
        assert GoesOn(s, init + [c]) <==> GoesOn(s[1..], init[1..] + [c]);
      }
    }
  }

  /** Directly before a string that ends in U+0000 comes the string without it. */
  lemma {:induction false} BeforeNul(init: Text, s: Text)
    ensures CompareScalars(s, init + [0]) == Less <==> CompareScalars(s, init) != Greater
  {
    if init == [] {
      assert init + [0] == [0];
    } else {
      assert (init + [0])[1..] == init[1..] + [0];
      if s != [] && s[0] == init[0] {
        BeforeNul(init[1..], s[1..]);
      }
    }
  }

  /** The range of a condition on strings accepts what the comparison accepts, except exactly for these strings. */
  lemma RangeExact(c: Comparison, op: Option<Text>, v: Option<Text>)
    ensures (Native(c, op, v) <==> Compared(c, op, v)) <==> !Misses(c, op, v)
  {
    if v.Some? {
      var s := v.value;
      BeyondMaxIs(s);
      Scalars([MAX_SCALAR], s);
      if op.None? {
        Scalars([], s);
      } else {
        Scalars(op.value, s);
        Scalars(s, op.value);
        match c
        case GreaterThan => GreaterExact(op.value, s);
        case LessThan => LessExact(op.value, s);
        case _ =>
      }
    }
  }

  lemma GreaterExact(t: Text, s: Text)
    ensures (Native(GreaterThan, Some(t), Some(s)) <==> Compared(GreaterThan, Some(t), Some(s)))
       <==> !Misses(GreaterThan, Some(t), Some(s))
  {
    BeyondMaxIs(s);
    Scalars([MAX_SCALAR], s);
    Scalars(s, t);
    if t == [] {
      AboveEmpty(s);
    } else if Moved(t, 1).Some? {
      GreaterMoved(t, s, Moved(t, 1).value);
    }
  }

  lemma GreaterMoved(t: Text, s: Text, u: Text)
    requires t != [] && Moved(t, 1) == Some(u)
    ensures CompareBytes(Utf8(u), Utf8(s)) != Greater <==> Compared(GreaterThan, Some(t), Some(s)) && !GoesOn(s, t)
  {
    Scalars(s, t);
    Scalars(u, s);
    Scalars(s, u);
    NextAfter(t, s);
    MovedParts(t, 1);
    BothAfter(t[..|t| - 1], t[|t| - 1], u[|t| - 1]);
    Utf8Order(t, u);
    if CompareScalars(u, s) != Greater {
      CompareTransitive(Utf8(t), Utf8(u), Utf8(s));
      Scalars(t, s);
    }
  }

  lemma AboveEmpty(s: Text)
    ensures CompareBytes(Utf8([0]), Utf8(s)) != Greater <==> s != []
    ensures CompareScalars(s, []) == Greater <==> s != []
  {
    Scalars([0], s);
    BeforeNul([], s);
    assert [] + [0] == [0];
  }

  lemma MovedParts(t: Text, step: int)
    requires t != [] && Moved(t, step).Some?
    ensures var u, n := Moved(t, step).value, |t| - 1;
            |u| == n + 1 && u[n] == t[n] + step && u == t[..n] + [u[n]] && t == t[..n] + [t[n]]
  {
  }

  lemma NextAfter(t: Text, s: Text)
    requires t != [] && Moved(t, 1).Some?
    ensures CompareScalars(s, t) == Greater && CompareScalars(s, Moved(t, 1).value) == Less <==> GoesOn(s, t)
  {
    MovedParts(t, 1);
    OneStep(t[..|t| - 1], t[|t| - 1], Moved(t, 1).value[|t| - 1], s);
  }

  lemma BeforeLast(t: Text, s: Text)
    requires t != [] && Moved(t, -1).Some?
    ensures CompareScalars(s, Moved(t, -1).value) == Greater && CompareScalars(s, t) == Less
       <==> GoesOn(s, Moved(t, -1).value)
  {
    MovedParts(t, -1);
    OneStep(t[..|t| - 1], Moved(t, -1).value[|t| - 1], t[|t| - 1], s);
  }

  lemma MovedIsBefore(t: Text)
    requires t != [] && Moved(t, -1).Some?
    ensures CompareScalars(Moved(t, -1).value, t) == Less
  {
    MovedParts(t, -1);
    var init := t[..|t| - 1];
    OneStep(init, Moved(t, -1).value[|t| - 1], t[|t| - 1], t);
    BothAfter(init, Moved(t, -1).value[|t| - 1], t[|t| - 1]);
  }

  lemma {:induction false} BothAfter(init: Text, c: Scalar, d: Scalar)
    requires c < d
    ensures CompareScalars(init + [c], init + [d]) == Less
  {
    if init == [] {
      assert init + [c] == [c] && init + [d] == [d];
    } else {
      assert (init + [c])[1..] == init[1..] + [c] && (init + [d])[1..] == init[1..] + [d];
      BothAfter(init[1..], c, d);
    }
  }

  lemma LessMoved(t: Text, s: Text, u: Text)
    requires t != [] && t[|t| - 1] != 0 && Moved(t, -1) == Some(u)
    ensures (Native(LessThan, Some(t), Some(s)) <==> Compared(LessThan, Some(t), Some(s))) <==> !(GoesOn(s, u))
    ensures GoesOn(s, u) ==> Compared(LessThan, Some(t), Some(s))
    ensures GoesOn(s, u) <==> GoesOnBefore(s, t)
  {
    GoesOnMoved(t, s, u);
    Scalars(s, t);
    Scalars(u, s);
    BeforeLast(t, s);
    MovedIsBefore(t);
    Utf8Order(u, t);
    if CompareScalars(u, s) != Less {
      Scalars(s, u);
      CompareTransitive(Utf8(s), Utf8(u), Utf8(t));
    }
  }

  lemma GoesOnMoved(t: Text, s: Text, u: Text)
    requires t != [] && t[|t| - 1] != 0 && Moved(t, -1) == Some(u)
    ensures GoesOn(s, u) <==> GoesOnBefore(s, t)
  {
    MovedParts(t, -1);
    var n := |t| - 1;
    if GoesOnBefore(s, t) {
      assert s[..n + 1] == s[..n] + [s[n]] == u;
    }
  }

  lemma LessNul(t: Text, s: Text)
    requires t != [] && t[|t| - 1] == 0
    ensures Native(LessThan, Some(t), Some(s)) <==> Compared(LessThan, Some(t), Some(s))
  {
    assert t == t[..|t| - 1] + [0];
    Scalars(s, t);
    Scalars(t[..|t| - 1], s);
    BeforeNul(t[..|t| - 1], s);
  }

  lemma LessEmpty(s: Text)
    ensures !Native(LessThan, Some([]), Some(s)) && !Compared(LessThan, Some([]), Some(s))
  {
    Scalars(s, []);
  }

  lemma LessExact(t: Text, s: Text)
    ensures (Native(LessThan, Some(t), Some(s)) <==> Compared(LessThan, Some(t), Some(s)))
       <==> !Misses(LessThan, Some(t), Some(s))
  {
    if t == [] {
      LessEmpty(s);
    } else if t[|t| - 1] == 0 {
      LessNul(t, s);
    } else if Moved(t, -1).Some? {
      LessMoved(t, s, Moved(t, -1).value);
    }
  }

  /** Between inclusive bounds the two agree on every string. */
  lemma BetweenExact(lower: Option<Text>, upper: Option<Text>, v: Option<Text>)
    ensures StringBetween(v, lower, upper) <==> Between(lower, upper, v)
  {
    if v.Some? && lower.Some? {
      Scalars(lower.value, v.value);
      Scalars(v.value, lower.value);
    }
    if v.Some? && upper.Some? {
      Scalars(upper.value, v.value);
      Scalars(v.value, upper.value);
    }
  }

  /** "ab" is less than "b", and missing from the range for it. */
  lemma LessExample()
    ensures Compared(LessThan, Some([98]), Some([97, 98])) && !Native(LessThan, Some([98]), Some([97, 98]))
  {
    RangeExact(LessThan, Some([98]), Some([97, 98]));
    Scalars([97, 98], [98]);
  }
}
