/**
 What the integer conversions of the tiny printf write, against the text of the standard; and `snprintf_`
 over whole formats.
 */
module PrintfText {
  import opened Bytes
  import opened LittleEndian
  import opened TinyPrintf

  // ----- reversing

  lemma {:induction false} ReverseConcat(a: string, b: string)
    ensures Reverse(a + b) == Reverse(b) + Reverse(a)
  {
    if a == "" {
      assert a + b == b && Reverse(b) + "" == Reverse(b);
    } else {
      assert (a + b)[1..] == a[1..] + b;
      ReverseConcat(a[1..], b);
      Associate(Reverse(b), Reverse(a[1..]), [a[0]]);
    }
  }

  lemma {:induction false} ReverseRepeat(c: char, n: nat)
    ensures Reverse(Repeat(c, n)) == Repeat(c, n)
  {
    if n == 0 {
    } else {
      assert Repeat(c, n)[1..] == Repeat(c, n - 1);
      ReverseRepeat(c, n - 1);
      assert Repeat(c, n - 1) + [c] == Repeat(c, n);
    }
  }

  lemma ReverseShort(s: string)
    requires |s| <= 1
    ensures Reverse(s) == s
  {
    if |s| == 1 { assert s[1..] == "" && "" + [s[0]] == s; }
  }

  /** Digits, zeros and sign come out as sign, zeros and digits. */
  lemma ReversedParts(digits: string, zeros: nat, sign: string)
    requires |sign| <= 1
    ensures Reverse(digits + Repeat('0', zeros) + sign) == sign + (Repeat('0', zeros) + Reverse(digits))
  {
    ReverseConcat(digits + Repeat('0', zeros), sign);
    ReverseConcat(digits, Repeat('0', zeros));
    ReverseRepeat('0', zeros);
    ReverseShort(sign);
  }

  // ----- against the standard

  predicate Given(prec: nat, flags: Flags) {
    (prec > 0 ==> flags.precision) && (flags.precision ==> !flags.zeroPad)
  }

  /** The buffer is large enough for `n` digits, and a precision is not combined with left alignment. */
  predicate Fits(n: nat, negative: bool, prec: nat, width: nat, flags: Flags) {
    var sign := Sign(negative, flags);
    if flags.left then prec <= n
    else
      var zeros := if flags.zeroPad then width - |sign| else prec;
      var m := if n < zeros then zeros else n;
      || m < BUFFER_SIZE
      || (m == BUFFER_SIZE && (sign == "" || (sign == " " && !flags.zeroPad && width > BUFFER_SIZE)))
  }

  predicate IsStandard(digits: string, negative: bool, prec: nat, width: nat, flags: Flags) {
    Reversed(Padded(digits, negative, prec, width, flags), width, flags)
        == StandardText(digits, negative, prec, width, flags)
  }

  lemma {:induction false} LeadingDigit(v: nat, base: nat, upper: bool)
    requires 8 <= base <= 16 && v > 0
    ensures var d := LowDigits(v, base, upper); d != "" && d[|d| - 1] != '0'
  {
    Smaller(v, base);
    var digit, rest := DigitChar(v % base, upper), LowDigits(v / base, base, upper);
    assert LowDigits(v, base, upper) == [digit] + rest;
    if v / base > 0 {
      LeadingDigit(v / base, base, upper);
    } else {
      Quotient(v, base);
      assert digit == DigitChar(v, upper) != '0';
    }
  }

  lemma ReversedSign(d: string, sign: string)
    requires |sign| <= 1
    ensures Reverse(d + sign) == sign + Reverse(d)
  {
    ReverseConcat(d, sign);
    ReverseShort(sign);
  }

  lemma LeftRendered(d: string, negative: bool, prec: nat, width: nat, flags: Flags)
    requires flags.left && |d| < BUFFER_SIZE
    ensures Reversed(Padded(d, negative, prec, width, flags), width, flags)
         == Sign(negative, flags) + Reverse(d) + Repeat(' ', width - |Reverse(d)| - |Sign(negative, flags)|)
  {
    var sign := Sign(negative, flags);
    assert Padded(d, negative, prec, width, flags) == d + sign;
    ReversedSign(d, sign);
    assert |d + sign| == |Reverse(d)| + |sign|;
  }

  lemma LeftStandard(d: string, negative: bool, prec: nat, width: nat, flags: Flags)
    requires flags.left
    ensures var sign, long := Sign(negative, flags), Repeat('0', prec - |Reverse(d)|) + Reverse(d);
            StandardText(d, negative, prec, width, flags) == sign + long + Repeat(' ', width - |sign| - |long|)
  {
  }

  lemma LeftExact(d: string, negative: bool, prec: nat, width: nat, flags: Flags)
    requires flags.left && |d| < BUFFER_SIZE && (prec > |d| && d != "" ==> d[|d| - 1] != '0')
    ensures IsStandard(d, negative, prec, width, flags) <==> prec <= |d|
  {
    LeftRendered(d, negative, prec, width, flags);
    LeftStandard(d, negative, prec, width, flags);
    if d != "" { ReverseLast(d); }
    LeftAgainst(Sign(negative, flags), Reverse(d), prec, width);
  }

  lemma LeftAgainst(sign: string, r: string, prec: nat, width: nat)
    requires prec > |r| && r != "" ==> r[0] != '0'
    ensures var long := Repeat('0', prec - |r|) + r;
            sign + r + Repeat(' ', width - |r| - |sign|) == sign + long + Repeat(' ', width - |sign| - |long|)
            <==> prec <= |r|
  {
    var long := Repeat('0', prec - |r|) + r;
    if prec <= |r| {
      assert long == r;
    } else {
      var text := sign + r + Repeat(' ', width - |r| - |sign|);
      var should := sign + long + Repeat(' ', width - |sign| - |long|);
      assert should[|sign|] == '0';
      assert |text| > |sign| ==> text[|sign|] == if r != "" then r[0] else ' ';
    }
  }

  lemma ReverseLast(s: string)
    requires s != ""
    ensures Reverse(s)[0] == s[|s| - 1]
  {
    var init, last := s[..|s| - 1], s[|s| - 1];
    assert s == init + [last];
    ReverseSnoc(init, last);
  }

  /** Zeros that fit, and the sign if it fits, too. */
  function Room(d: string, zeros: nat): nat {
    if |d| + zeros < BUFFER_SIZE then zeros else if |d| < BUFFER_SIZE then BUFFER_SIZE - |d| else 0
  }

  function SignIfRoom(d: string, zeros: nat, sign: string): string { if |d| + zeros < BUFFER_SIZE then sign else "" }

  lemma PaddedText(d: string, negative: bool, prec: nat, width: nat, flags: Flags, z: nat)
    requires !flags.left && |d| < BUFFER_SIZE
    requires z == if flags.zeroPad then Positive(width - |Sign(negative, flags)| - |d|) else Positive(prec - |d|)
    requires flags.zeroPad ==> prec == 0
    ensures Padded(d, negative, prec, width, flags)
         == d + Repeat('0', Room(d, z)) + SignIfRoom(d, Room(d, z), Sign(negative, flags))
  {
    if flags.zeroPad {
      assert PadZeros(d, Least(0, BUFFER_SIZE)) == d;
    }
  }

  function Positive(n: int): nat { if n > 0 then n else 0 }

  lemma ZeroPadExact(d: string, negative: bool, width: nat, flags: Flags)
    requires flags.zeroPad && !flags.left && |d| < BUFFER_SIZE
    ensures IsStandard(d, negative, 0, width, flags) <==> Fits(|d|, negative, 0, width, flags)
  {
    var sign := Sign(negative, flags);
    var z := Positive(width - |sign| - |d|);
    PaddedText(d, negative, 0, width, flags, z);
    ReversedParts(d, Room(d, z), SignIfRoom(d, Room(d, z), sign));
    ZeroText(d, negative, width, flags, z);
    assert sign + Repeat('0', z) + Reverse(d) == sign + (Repeat('0', z) + Reverse(d));
  }

  lemma ZeroText(d: string, negative: bool, width: nat, flags: Flags, z: nat)
    requires flags.zeroPad && !flags.left && z == Positive(width - |Sign(negative, flags)| - |d|)
    ensures StandardText(d, negative, 0, width, flags) == Sign(negative, flags) + Repeat('0', z) + Reverse(d)
  {
    assert Repeat('0', 0 - |d|) + Reverse(d) == Reverse(d);
  }

  lemma SpacePadExact(d: string, negative: bool, prec: nat, width: nat, flags: Flags)
    requires !flags.zeroPad && !flags.left && |d| < BUFFER_SIZE
    ensures IsStandard(d, negative, prec, width, flags) <==> Fits(|d|, negative, prec, width, flags)
  {
    var z := Positive(prec - |d|);
    SpaceRendered(d, negative, prec, width, flags, z);
    SpaceText(d, negative, prec, width, flags, z);
    SpaceDecides(Reversed(Padded(d, negative, prec, width, flags), width, flags),
                 StandardText(d, negative, prec, width, flags), d, z, Sign(negative, flags), width);
  }

  lemma SpaceDecides(text: string, should: string, d: string, z: nat, sign: string, width: nat)
    requires |d| < BUFFER_SIZE && |sign| <= 1
    requires var short, s' := Repeat('0', Room(d, z)) + Reverse(d), SignIfRoom(d, Room(d, z), sign);
             text == Repeat(' ', width - |s' + short|) + (s' + short)
    requires var long := Repeat('0', z) + Reverse(d);
             should == Repeat(' ', width - |sign| - |long|) + (sign + long)
    ensures text == should
       <==> |d| + z < BUFFER_SIZE || (|d| + z == BUFFER_SIZE && (sign == "" || (sign == " " && width > BUFFER_SIZE)))
  {
    SpaceDigits(d, z, sign, width);
  }

  lemma SpaceDigits(d: string, z: nat, sign: string, width: nat)
    requires |d| < BUFFER_SIZE && |sign| <= 1
    ensures var short, s' := Repeat('0', Room(d, z)) + Reverse(d), SignIfRoom(d, Room(d, z), sign);
            var long := Repeat('0', z) + Reverse(d);
            Repeat(' ', width - |s' + short|) + (s' + short) == Repeat(' ', width - |sign| - |long|) + (sign + long)
            <==> (|| |d| + z < BUFFER_SIZE
                  || (|d| + z == BUFFER_SIZE && (sign == "" || (sign == " " && width > BUFFER_SIZE))))
  {
    var short, s' := Repeat('0', Room(d, z)) + Reverse(d), SignIfRoom(d, Room(d, z), sign);
    SpaceShapes(d, z);
    SpaceAgainst(sign, s', Repeat('0', z) + Reverse(d), short, width);
  }

  lemma SpaceShapes(d: string, z: nat)
    requires |d| < BUFFER_SIZE
    ensures var long, short := Repeat('0', z) + Reverse(d), Repeat('0', Room(d, z)) + Reverse(d);
            && |long| == |d| + z && |short| == |d| + Room(d, z) == Least(|long|, BUFFER_SIZE)
            && (|short| == |long| ==> short == long)
            && (|short| < |long| ==> long[|long| - |short| - 1] == '0')
  {
  }

  lemma SpaceRendered(d: string, negative: bool, prec: nat, width: nat, flags: Flags, z: nat)
    requires !flags.zeroPad && !flags.left && |d| < BUFFER_SIZE && z == Positive(prec - |d|)
    ensures var short, s' := Repeat('0', Room(d, z)) + Reverse(d), SignIfRoom(d, Room(d, z), Sign(negative, flags));
            Reversed(Padded(d, negative, prec, width, flags), width, flags)
                == Repeat(' ', width - |s' + short|) + (s' + short)
  {
    var s' := SignIfRoom(d, Room(d, z), Sign(negative, flags));
    PaddedText(d, negative, prec, width, flags, z);
    ReversedParts(d, Room(d, z), s');
    assert |d + Repeat('0', Room(d, z)) + s'| == |s' + (Repeat('0', Room(d, z)) + Reverse(d))|;
  }

  lemma SpaceText(d: string, negative: bool, prec: nat, width: nat, flags: Flags, z: nat)
    requires !flags.zeroPad && !flags.left && z == Positive(prec - |d|)
    ensures var sign, long := Sign(negative, flags), Repeat('0', z) + Reverse(d);
            StandardText(d, negative, prec, width, flags) == Repeat(' ', width - |sign| - |long|) + (sign + long)
  {
    assert Repeat('0', prec - |d|) == Repeat('0', z);
  }

  lemma SpaceAgainst(sign: string, s': string, long: string, short: string, width: nat)
    requires |sign| <= 1 && |short| == Least(|long|, BUFFER_SIZE) && s' == if |short| < BUFFER_SIZE then sign else ""
    requires |short| == |long| ==> short == long
    requires |short| < |long| ==> long[|long| - |short| - 1] == '0'
    ensures Repeat(' ', width - |s' + short|) + (s' + short) == Repeat(' ', width - |sign| - |long|) + (sign + long)
       <==> |long| < BUFFER_SIZE || (|long| == BUFFER_SIZE && (sign == "" || (sign == " " && width > BUFFER_SIZE)))
  {
    if |long| == BUFFER_SIZE && sign != "" {
      SignLost(width, sign, long);
    } else if |long| > BUFFER_SIZE {
      DigitLost(Repeat(' ', width - |s' + short|) + (s' + short), Repeat(' ', width - |sign| - |long|) + (sign + long),
                width, sign, long, short);
    }
  }

  /** A lost sign goes unnoticed if it is a space and there is padding before it. */
  lemma SignLost(width: nat, sign: string, long: string)
    requires |sign| == 1
    ensures Repeat(' ', width - |long|) + ("" + long) == Repeat(' ', width - 1 - |long|) + (sign + long)
       <==> sign == " " && width > |long|
  {
    var a, b := Repeat(' ', width - |long|) + ("" + long), Repeat(' ', width - 1 - |long|) + (sign + long);
    if width > |long| {
      assert b[width - 1 - |long|] == sign[0] && a[width - 1 - |long|] == ' ';
      if sign == " " {
        assert a == b;
      }
    } else {
      assert |a| < |b|;
    }
  }

  /** A lost digit does not: seen from the end there is a zero in the one text and not in the other. */
  lemma DigitLost(text: string, should: string, width: nat, sign: string, long: string, short: string)
    requires |short| < |long| && |sign| <= 1 && long[|long| - |short| - 1] == '0'
    requires text == Repeat(' ', width - |short|) + ("" + short)
    requires should == Repeat(' ', width - |sign| - |long|) + (sign + long)
    ensures text != should
  {
    if |text| == |should| {
      var k := |should| - |short| - 1;
      assert should[k] == (sign + long)[|sign| + |long| - |short| - 1] == '0';
      assert text[k] == ' ';
    }
  }

  /**
   The conversion writes the text of the standard exactly when it fits the buffer and does not align
   a precision left.
   */
  lemma ConversionExact(v: u64, negative: bool, base: nat, prec: nat, width: nat, flags: Flags)
    requires 8 <= base <= 16 && Given(prec, flags) && !flags.hash
    ensures Rendered(v, negative, base, prec, width, flags) == Standard(v, negative, base, prec, width, flags)
       <==> Fits(|Collected(v, base, flags)|, negative, prec, width, flags)
  {
    var d := Collected(v, base, flags);
    DigitsFit(v, base, flags);
    RenderedPlain(v, negative, base, prec, width, flags);
    if prec > |d| { LeadingCollected(v, base, flags); }
    DigitsExact(d, negative, prec, width, flags);
  }

  /** A precision of `n` for the number 1 gives the text of the standard up to 32; then the buffer cuts zeros. */
  lemma PrecisionExample(n: nat)
    ensures var flags := Flags(false, false, false, false, false, false, true);
            Rendered(1, false, 10, n, 0, flags) == Standard(1, false, 10, n, 0, flags) <==> n <= 32
  {
    var flags := Flags(false, false, false, false, false, false, true);
    ConversionExact(1, false, 10, n, 0, flags);
    assert LowDigits(1, 10, false) == [DigitChar(1, false)] + LowDigits(0, 10, false);
    assert |Collected(1, 10, flags)| == 1;
  }

  lemma DigitsExact(d: string, negative: bool, prec: nat, width: nat, flags: Flags)
    requires |d| < BUFFER_SIZE && Given(prec, flags) && (prec > |d| && d != "" ==> d[|d| - 1] != '0')
    ensures IsStandard(d, negative, prec, width, flags) <==> Fits(|d|, negative, prec, width, flags)
  {
    if flags.left {
      LeftExact(d, negative, prec, width, flags);
    } else if flags.zeroPad {
      ZeroPadExact(d, negative, width, flags);
    } else {
      SpacePadExact(d, negative, prec, width, flags);
    }
  }

  lemma RenderedPlain(v: u64, negative: bool, base: nat, prec: nat, width: nat, flags: Flags)
    requires 8 <= base <= 16 && !flags.hash
    ensures Rendered(v, negative, base, prec, width, flags)
         == Reversed(Padded(Collected(v, base, flags), negative, prec, width, flags), width, flags)
  {
    DigitsFit(v, base, flags);
    assert HashFlags(v, flags) == flags;
  }

  lemma LeadingCollected(v: nat, base: nat, flags: Flags)
    requires 8 <= base <= 16 && flags.precision
    ensures var d := Collected(v, base, flags); d != "" ==> d[|d| - 1] != '0'
  {
    if v > 0 { LeadingDigit(v, base, flags.upper); }
  }

  // ----- reading it back

  function SkipSpaces(s: string): string {
    if s != "" && s[0] == ' ' then SkipSpaces(s[1..]) else s
  }

  function ReadDigits(s: string, base: nat, acc: nat): nat {
    if s != "" && DigitValue(s[0]).Some? && DigitValue(s[0]).value < base
    then ReadDigits(s[1..], base, acc * base + DigitValue(s[0]).value)
    else acc
  }

  /** `strtol`, section 7.22.1.4 of ISO/IEC 9899:2011, without limits. */
  function Strtol(s: string, base: nat): int {
    var t := SkipSpaces(s);
    if t == "" then 0
    else if t[0] == '-' then 0 - ReadDigits(t[1..], base, 0)
    else if t[0] == '+' then ReadDigits(t[1..], base, 0)
    else ReadDigits(t, base, 0)
  }

  lemma {:induction false} SkipRepeated(n: int, s: string)
    ensures SkipSpaces(Repeat(' ', n) + s) == SkipSpaces(s)
  {
    if n <= 0 {
      assert Repeat(' ', n) + s == s;
    } else {
      assert (Repeat(' ', n) + s)[1..] == Repeat(' ', n - 1) + s;
      SkipRepeated(n - 1, s);
    }
  }

  lemma {:induction false} ReadZeros(n: int, s: string, base: nat)
    requires base > 0
    ensures ReadDigits(Repeat('0', n) + s, base, 0) == ReadDigits(s, base, 0)
  {
    if n <= 0 {
      assert Repeat('0', n) + s == s;
    } else {
      assert (Repeat('0', n) + s)[1..] == Repeat('0', n - 1) + s;
      ReadZeros(n - 1, s, base);
    }
  }

  lemma DigitRead(d: nat, upper: bool)
    requires d < 16
    ensures DigitValue(DigitChar(d, upper)) == Some(d)
  {
  }

  lemma {:induction false} ReadBack(v: nat, base: nat, upper: bool, tail: string)
    requires 8 <= base <= 16
    ensures ReadDigits(Reverse(LowDigits(v, base, upper)) + tail, base, 0) == ReadDigits(tail, base, v)
  {
    if v == 0 {
      assert Reverse("") + tail == tail;
    } else {
      Smaller(v, base);
      var digit, rest := DigitChar(v % base, upper), LowDigits(v / base, base, upper);
      ReadBack(v / base, base, upper, [digit] + tail);
      DigitRead(v % base, upper);
      Head([digit] + tail, digit, tail);
      Unfolded(v, base, upper);
      Associate(Reverse(rest), [digit], tail);
      Quotient(v, base);
    }
  }

  lemma Unfolded(v: nat, base: nat, upper: bool)
    requires 8 <= base <= 16 && v > 0
    ensures Reverse(LowDigits(v, base, upper))
        == Reverse(LowDigits(v / base, base, upper)) + [DigitChar(v % base, upper)]
  {
    var digit, rest := DigitChar(v % base, upper), LowDigits(v / base, base, upper);
    assert LowDigits(v, base, upper) == [digit] + rest;
    assert ([digit] + rest)[1..] == rest;
  }

  lemma Head(s: string, c: char, t: string)
    requires s == [c] + t
    ensures s[0] == c && s[1..] == t
  {
  }

  lemma Quotient(v: nat, base: nat)
    requires base > 0
    ensures v / base * base + v % base == v
  {
  }

  lemma CollectedBack(v: nat, base: nat, flags: Flags, tail: string)
    requires 8 <= base <= 16 && (tail == "" || tail[0] == ' ')
    ensures ReadDigits(Reverse(Collected(v, base, flags)) + tail, base, 0) == v
  {
    if v > 0 {
      ReadBack(v, base, flags.upper, tail);
    } else if flags.precision {
      assert Reverse("") + tail == tail;
    } else {
      ReverseShort("0");
      Head("0" + tail, '0', tail);
    }
  }

  lemma {:induction false} AllDigits(v: nat, base: nat, upper: bool, i: nat)
    requires 8 <= base <= 16 && i < |LowDigits(v, base, upper)|
    ensures DigitValue(LowDigits(v, base, upper)[i]).Some?
    decreases i
  {
    DigitRead(v % base, upper);
    Head(LowDigits(v, base, upper), DigitChar(v % base, upper), LowDigits(v / base, base, upper));
    if i == 0 {
    } else {
      AllDigits(v / base, base, upper, i - 1);
      assert LowDigits(v, base, upper)[i] == LowDigits(v, base, upper)[1..][i - 1];
    }
  }

  /** Zeros, digits and spaces. */
  function Body(a: int, b: int, digits: string, n: int): string {
    Repeat('0', a) + (Repeat('0', b) + (Reverse(digits) + Repeat(' ', n)))
  }

  lemma BodyReadsBack(v: nat, base: nat, flags: Flags, a: int, b: int, n: int)
    requires 8 <= base <= 16
    ensures ReadDigits(Body(a, b, Collected(v, base, flags), n), base, 0) == v
  {
    var r := Reverse(Collected(v, base, flags)) + Repeat(' ', n);
    ReadZeros(a, Repeat('0', b) + r, base);
    ReadZeros(b, r, base);
    CollectedBack(v, base, flags, Repeat(' ', n));
  }

  /** The first character is a digit, if there are any. */
  lemma BodyStart(v: nat, base: nat, flags: Flags, a: int, b: int, n: int)
    requires 8 <= base <= 16
    ensures var s := Body(a, b, Collected(v, base, flags), n);
            if a <= 0 && b <= 0 && Collected(v, base, flags) == "" then s == Repeat(' ', n)
            else s != "" && DigitValue(s[0]).Some?
  {
    var d := Collected(v, base, flags);
    if a <= 0 && b <= 0 && d != "" {
      ReverseLast(d);
      if v > 0 { AllDigits(v, base, flags.upper, |d| - 1); }
      assert Body(a, b, d, n)[0] == Reverse(d)[0];
    }
  }

  lemma UnsignedReadsBack(v: nat, base: nat, flags: Flags, a: int, b: int, n: int)
    requires 8 <= base <= 16
    ensures Strtol(Body(a, b, Collected(v, base, flags), n), base) == v
  {
    var s := Body(a, b, Collected(v, base, flags), n);
    BodyReadsBack(v, base, flags, a, b, n);
    BodyStart(v, base, flags, a, b, n);
    if s == Repeat(' ', n) {
      assert s == Repeat(' ', n) + "";
      SkipRepeated(n, "");
    }
  }

  lemma SignedReadsBack(v: nat, negative: bool, base: nat, flags: Flags, a: int, b: int, n: int)
    requires 8 <= base <= 16
    ensures Strtol(Sign(negative, flags) + Body(a, b, Collected(v, base, flags), n), base)
         == if negative then 0 - v else v
  {
    var s, sign := Body(a, b, Collected(v, base, flags), n), Sign(negative, flags);
    BodyReadsBack(v, base, flags, a, b, n);
    UnsignedReadsBack(v, base, flags, a, b, n);
    if sign == "" {
      assert sign + s == s;
    } else {
      Head(sign + s, sign[0], s);
    }
  }

  lemma LeftReadsBack(v: nat, negative: bool, base: nat, z: int, pad: int, flags: Flags)
    requires 8 <= base <= 16
    ensures Strtol(Sign(negative, flags) + (Repeat('0', z) + Reverse(Collected(v, base, flags)))
        + Repeat(' ', pad), base)
         == if negative then 0 - v else v
  {
    SignedReadsBack(v, negative, base, flags, 0, z, pad);
    Regroup(Sign(negative, flags), "", Repeat('0', z), Reverse(Collected(v, base, flags)), Repeat(' ', pad));
  }

  lemma ZerosReadBack(v: nat, negative: bool, base: nat, z: int, pad: int, flags: Flags)
    requires 8 <= base <= 16
    ensures Strtol(Sign(negative, flags) + Repeat('0', pad)
        + (Repeat('0', z) + Reverse(Collected(v, base, flags))), base)
         == if negative then 0 - v else v
  {
    SignedReadsBack(v, negative, base, flags, pad, z, 0);
    Regroup(Sign(negative, flags), Repeat('0', pad), Repeat('0', z), Reverse(Collected(v, base, flags)), "");
  }

  lemma SpacesReadBack(v: nat, negative: bool, base: nat, z: int, pad: int, flags: Flags)
    requires 8 <= base <= 16
    ensures Strtol(Repeat(' ', pad) + Sign(negative, flags)
        + (Repeat('0', z) + Reverse(Collected(v, base, flags))), base)
         == if negative then 0 - v else v
  {
    var sign, long := Sign(negative, flags), Repeat('0', z) + Reverse(Collected(v, base, flags));
    SignedReadsBack(v, negative, base, flags, 0, z, 0);
    Regroup(sign, "", Repeat('0', z), Reverse(Collected(v, base, flags)), "");
    Associate(Repeat(' ', pad), sign, long);
    SkipRepeated(pad, sign + long);
  }

  /** The text of the standard reads back as the value. */
  lemma StandardReadsBack(v: nat, negative: bool, base: nat, prec: nat, width: nat, flags: Flags)
    requires 8 <= base <= 16
    ensures Strtol(Standard(v, negative, base, prec, width, flags), base) == if negative then 0 - v else v
  {
    var d, sign := Collected(v, base, flags), Sign(negative, flags);
    var z := prec - |d|;
    var pad := width - |sign| - |Repeat('0', z) + Reverse(d)|;
    if flags.left {
      LeftReadsBack(v, negative, base, z, pad, flags);
    } else if flags.zeroPad {
      ZerosReadBack(v, negative, base, z, pad, flags);
    } else {
      SpacesReadBack(v, negative, base, z, pad, flags);
    }
  }

  lemma Regroup(sign: string, a: string, b: string, d: string, tail: string)
    ensures sign + a + (b + d) + tail == sign + (a + (b + (d + tail)))
    ensures a == "" ==> sign + a == sign
    ensures tail == "" ==> sign + a + (b + d) + tail == sign + a + (b + d)
  {
  }

  /** What the conversion writes reads back as the value whenever the sign and all digits fit the buffer. */
  lemma ConversionReadsBack(v: u64, negative: bool, base: nat, prec: nat, width: nat, flags: Flags)
    requires 8 <= base <= 16 && Given(prec, flags) && !flags.hash
    requires Fits(|Collected(v, base, flags)|, negative, if flags.left then 0 else prec, width, flags)
    ensures Strtol(Rendered(v, negative, base, prec, width, flags), base) == if negative then 0 - v else v
  {
    var p := if flags.left then 0 else prec;
    ConversionExact(v, negative, base, p, width, flags);
    StandardReadsBack(v, negative, base, p, width, flags);
  }
}
