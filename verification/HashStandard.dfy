/**
 The `#` flag of `o`, `x` and `X` against section 7.21.6.1 of ISO/IEC 9899:2011. The prefix is put where
 leading zeros were, if they filled the width; that they did is guessed from the length alone.
 */
module HashStandard {
  import opened Bytes
  import opened LittleEndian
  import opened TinyPrintf
  import opened PrintfText
  import opened FormatScan
  import opened PrintfStandard
  import opened DirectiveStandard

  // ----- the text of the standard

  /** The alternative form: a prefix for hexadecimal numbers other than zero, a leading zero for octal ones. */
  function StandardAlternative(v: nat, base: nat, upper: bool, prec: Option<nat>, width: nat, left: bool, zero: bool)
    : string
    requires 2 <= base <= 16
  {
    var digits := StandardDigits(v, base, upper, prec);
    if base == 16 && v != 0 then Filled(if upper then "0X" else "0x", digits, width, left, zero)
    else if base == 8 && (digits == "" || digits[0] != '0') then Filled("", "0" + digits, width, left, zero)
    else Filled("", digits, width, left, zero)
  }

  // ----- what is in the buffer

  function Prefix(base: nat, upper: bool): string { if base != 16 then "0" else if upper then "0X" else "0x" }

  function Most(a: nat, b: nat): nat { if a < b then b else a }

  /** The number of digits with the zeros that were put in front. */
  function Extent(n: nat, prec: nat, width: nat, flags: Flags): nat {
    if flags.left then n
    else if flags.zeroPad then Most(Most(n, Least(prec, BUFFER_SIZE)), Least(width, BUFFER_SIZE))
    else Most(n, Least(prec, BUFFER_SIZE))
  }

  lemma ZerosAdded(d: string, prec: nat, width: nat, flags: Flags)
    requires |d| <= BUFFER_SIZE
    ensures var m := Extent(|d|, prec, width, flags);
            && |d| <= m <= BUFFER_SIZE
            && (if flags.left then d else WithZeros(d, "", prec, width, flags.zeroPad)) == d + Repeat('0', m - |d|)
  {
    var precise := PadZeros(d, Least(prec, BUFFER_SIZE));
    assert precise == d + Repeat('0', Most(|d|, Least(prec, BUFFER_SIZE)) - |d|);
    if !flags.left && flags.zeroPad {
      MoreZeros(d, Most(|d|, Least(prec, BUFFER_SIZE)) - |d|, Least(width, BUFFER_SIZE) - |precise|);
    }
  }

  lemma MoreZeros(d: string, a: nat, b: int)
    ensures d + Repeat('0', a) + Repeat('0', b) == d + Repeat('0', a + if b < 0 then 0 else b)
  {
  }

  lemma HashRendered(v: u64, base: nat, prec: nat, width: nat, flags: Flags)
    requires v > 0 && 8 <= base <= 16 && flags.hash && !flags.plus && !flags.space
    ensures var d := Collected(v, base, flags);
            var m := Extent(|d|, prec, width, flags);
            && 0 < |d| <= m <= BUFFER_SIZE && |d| <= 22
            && Rendered(v, false, base, prec, width, flags)
               == Reversed(WithHash(d + Repeat('0', m - |d|), base, prec, width, flags), width, flags)
  {
    var d := Collected(v, base, flags);
    DigitsFit(v, base, flags);
    HashKept(v, base, prec, width, flags);
    ZerosAdded(d, prec, width, flags);
    Unsigned(d, base, prec, width, flags, if flags.left then d else WithZeros(d, "", prec, width, flags.zeroPad));
  }

  lemma HashKept(v: u64, base: nat, prec: nat, width: nat, flags: Flags)
    requires v > 0 && 8 <= base <= 16
    ensures Collected(v, base, flags) != ""
    ensures Rendered(v, false, base, prec, width, flags)
         == Reversed(Formatted(Collected(v, base, flags), false, base, prec, width, flags), width, flags)
  {
    DigitsFit(v, base, flags);
  }

  lemma Unsigned(d: string, base: nat, prec: nat, width: nat, flags: Flags, zeros: string)
    requires flags.hash && !flags.plus && !flags.space
    requires zeros == if flags.left then d else WithZeros(d, "", prec, width, flags.zeroPad)
    ensures Formatted(d, false, base, prec, width, flags) == WithHash(zeros, base, prec, width, flags)
  {
    var hashed := WithHash(zeros, base, prec, width, flags);
    assert hashed + "" == hashed;
  }

  lemma ZerosFirst(d: string, z: nat)
    ensures Reverse(d + Repeat('0', z)) == Repeat('0', z) + Reverse(d)
  {
    ReverseConcat(d, Repeat('0', z));
    ReverseRepeat('0', z);
  }

  lemma Fewer(d: string, z: nat, k: nat)
    requires k <= z
    ensures (d + Repeat('0', z))[..|d| + z - k] == d + Repeat('0', z - k)
  {
  }

  lemma OneInFront(kept: string, c: char)
    ensures Reverse(kept + [c]) == [c] + Reverse(kept)
  {
    ReverseConcat(kept, [c]);
    ReverseShort([c]);
  }

  /** The prefix goes behind the kept digits, back to front. */
  lemma PrefixAdded(kept: string, upper: bool)
    ensures Reverse(kept + "0") == "0" + Reverse(kept)
    ensures Reverse(kept + (if upper then "X" else "x") + "0") == (if upper then "0X" else "0x") + Reverse(kept)
  {
    OneInFront(kept, '0');
    var letter := if upper then 'X' else 'x';
    OneInFront(kept, letter);
    OneInFront(kept + [letter], '0');
    assert ['0'] + ([letter] + Reverse(kept)) == (['0'] + [letter]) + Reverse(kept);
  }

  /** Binary numbers, which the standard does not have, get the prefix "0b". */
  lemma BinaryPrefix(s: string, prec: nat, width: nat, flags: Flags)
    requires |s| + 2 <= BUFFER_SIZE && (flags.precision || (|s| != prec && |s| != width))
    ensures Reverse(WithHash(s, 2, prec, width, flags)) == "0b" + Reverse(s)
  {
    BinaryHashed(s, prec, width, flags);
    OneInFront(s, 'b');
    OneInFront(s + ['b'], '0');
    TwoInFront(Reverse(s));
  }

  lemma BinaryHashed(s: string, prec: nat, width: nat, flags: Flags)
    requires |s| + 2 <= BUFFER_SIZE && (flags.precision || (|s| != prec && |s| != width))
    ensures WithHash(s, 2, prec, width, flags) == (s + ['b']) + ['0']
  {
  }

  lemma TwoInFront(r: string)
    ensures ['0'] + (['b'] + r) == "0b" + r
  {
  }

  /** With room for the prefix and nothing taken away. */
  lemma BodyWhole(d: string, base: nat, prec: nat, width: nat, flags: Flags, m: nat)
    requires base in {8, 16} && 0 < |d| <= m <= BUFFER_SIZE && (prec > 0 ==> flags.precision)
    requires flags.precision || m != width
    ensures m + |Prefix(base, flags.upper)| <= BUFFER_SIZE ==>
              Reverse(WithHash(d + Repeat('0', m - |d|), base, prec, width, flags))
              == Prefix(base, flags.upper) + (Repeat('0', m - |d|) + Reverse(d))
  {
    var s := d + Repeat('0', m - |d|);
    if m + |Prefix(base, flags.upper)| <= BUFFER_SIZE {
      PrefixAdded(s, flags.upper);
      ZerosFirst(d, m - |d|);
      if base == 8 { assert s + "" == s; }
    }
  }

  /** Without enough room: as much of the prefix as fits. */
  lemma BodyFull(d: string, base: nat, prec: nat, width: nat, flags: Flags, m: nat)
    requires base in {8, 16} && 0 < |d| <= 22 && |d| <= m <= BUFFER_SIZE && (prec > 0 ==> flags.precision)
    requires flags.precision || m != width
    requires m + |Prefix(base, flags.upper)| > BUFFER_SIZE
    ensures var body := Reverse(WithHash(d + Repeat('0', m - |d|), base, prec, width, flags));
            |body| == BUFFER_SIZE && body[0] != ' ' && (base == 8 ==> body == Repeat('0', m - |d|) + Reverse(d))
  {
    var s := d + Repeat('0', m - |d|);
    ZerosFirst(d, m - |d|);
    assert s[m - 1] == '0';
    if base == 8 {
      assert s + "" == s;
    } else if m == BUFFER_SIZE {
      assert Reverse(s)[0] == '0';
    } else {
      OneInFront(s, if flags.upper then 'X' else 'x');
    }
  }

  /** With the last digits taken for padding. */
  lemma BodyTaken(d: string, base: nat, prec: nat, width: nat, flags: Flags, m: nat)
    requires base in {8, 16} && 0 < |d| <= m <= BUFFER_SIZE && prec == 0 && !flags.precision && m == width
    ensures var k := |Prefix(base, flags.upper)|;
            var body := Reverse(WithHash(d + Repeat('0', m - |d|), base, prec, width, flags));
            && |body| == Most(m, k)
            && (m >= |d| + k ==> body == Prefix(base, flags.upper) + (Repeat('0', m - k - |d|) + Reverse(d)))
  {
    var s, k := d + Repeat('0', m - |d|), |Prefix(base, flags.upper)|;
    var kept := if |s| > 1 && base == 16 then s[..|s| - 2] else s[..|s| - 1];
    PrefixAdded(kept, flags.upper);
    if base == 8 { assert kept + "" == kept; }
    if m >= |d| + k {
      Fewer(d, m - |d|, k);
      ZerosFirst(d, m - k - |d|);
    }
  }

  // ----- against the standard

  /** When the alternative form of `n` digits comes out right. */
  predicate FormFits(n: nat, base: nat, prec: nat, width: nat, flags: Flags) {
    if flags.left then (flags.precision || n != width) && prec <= (if base == 8 then n + 1 else n)
    else if flags.zeroPad then width < n || (n + (if base == 8 then 1 else 2) <= width <= BUFFER_SIZE)
    else
      && (flags.precision || n != width)
      && if base == 8 then prec <= n || prec == BUFFER_SIZE else prec <= 30
  }

  /** Most significant digit first: prefix, zeros up to the precision, digits. */
  function Form(r: string, base: nat, upper: bool, prec: nat): string {
    if base == 16 then Prefix(16, upper) + (Repeat('0', prec - |r|) + r)
    else if prec <= |r| then "0" + (Repeat('0', prec - |r|) + r)
    else Repeat('0', prec - |r|) + r
  }

  lemma LeadingParts(v: u64, base: nat, prec: Option<nat>, flags: Flags)
    requires v > 0 && base in {8, 16} && flags.precision == prec.Some?
    ensures var r := Reverse(Collected(v, base, flags));
            && r != "" && r[0] != '0' && r[0] != ' '
            && StandardDigits(v, base, flags.upper, prec) == Repeat('0', OrZero(prec) - |r|) + r
  {
    LeadingDigit(v, base, flags.upper);
    ReverseLast(Collected(v, base, flags));
    DigitsAre(v, base, prec, flags);
    NumeralReversed(v, base, flags.upper);
    NumeralStart(v, base, flags.upper);
  }

  /** The text of the standard for digits `r`. */
  function Alternative(r: string, base: nat, upper: bool, prec: nat, width: nat, left: bool, zero: bool): string {
    var prefix := Prefix(base, upper);
    if zero && !left then prefix + (Repeat('0', width - |r| - |prefix|) + r)
    else Filled("", Form(r, base, upper, prec), width, left, false)
  }

  lemma HexIs(r: string, upper: bool, prec: nat, width: nat, left: bool, zero: bool)
    requires zero ==> prec == 0
    ensures Filled(if upper then "0X" else "0x", Repeat('0', prec - |r|) + r, width, left, zero)
         == Alternative(r, 16, upper, prec, width, left, zero)
  {
    var digits := Repeat('0', prec - |r|) + r;
    if prec <= |r| { assert digits == r; }
    FilledPrefix(Prefix(16, upper), digits, width, left, zero);
  }

  lemma OctalIs(r: string, upper: bool, prec: nat, width: nat, left: bool, zero: bool)
    requires r != "" && r[0] != '0' && (zero ==> prec == 0)
    ensures var digits := Repeat('0', prec - |r|) + r;
            && digits != ""
            && Filled("", if digits[0] != '0' then "0" + digits else digits, width, left, zero)
               == Alternative(r, 8, upper, prec, width, left, zero)
  {
    var digits := Repeat('0', prec - |r|) + r;
    if prec <= |r| {
      assert digits == r;
      FilledZero(digits, width, left, zero);
    } else {
      assert digits[0] == '0';
    }
  }

  lemma AlternativeIs(v: u64, base: nat, prec: Option<nat>, width: nat, left: bool, zero: bool, flags: Flags)
    requires v > 0 && base in {8, 16} && flags.precision == prec.Some? && (zero ==> prec.None?)
    ensures StandardAlternative(v, base, flags.upper, prec, width, left, zero)
         == Alternative(Reverse(Collected(v, base, flags)), base, flags.upper, OrZero(prec), width, left, zero)
  {
    var r := Reverse(Collected(v, base, flags));
    LeadingParts(v, base, prec, flags);
    if base == 16 {
      HexIs(r, flags.upper, OrZero(prec), width, left, zero);
    } else {
      OctalIs(r, flags.upper, OrZero(prec), width, left, zero);
    }
  }

  /** A prefix counts like a digit unless zeros go behind it. */
  lemma FilledPrefix(prefix: string, digits: string, width: nat, left: bool, zero: bool)
    ensures Filled(prefix, digits, width, left, zero)
         == if zero && !left then prefix + (Repeat('0', width - |digits| - |prefix|) + digits)
            else Filled("", prefix + digits, width, left, false)
  {
    var n := width - |prefix| - |digits|;
    if zero && !left {
      assert prefix + Repeat('0', n) + digits == prefix + (Repeat('0', n) + digits);
    } else if left {
      assert "" + (prefix + digits) == prefix + digits;
    } else {
      assert Repeat(' ', n) + prefix + digits == Repeat(' ', n) + "" + (prefix + digits);
    }
  }

  lemma FilledZero(digits: string, width: nat, left: bool, zero: bool)
    ensures Filled("", "0" + digits, width, left, zero)
         == if zero && !left then "0" + (Repeat('0', width - |digits| - 1) + digits)
            else Filled("", "0" + digits, width, left, false)
  {
    if zero && !left {
      var n := width - |digits| - 1;
      assert "" + Repeat('0', n) == Repeat('0', n);
      assert Repeat('0', n) + ("0" + digits) == "0" + (Repeat('0', n) + digits);
    }
  }

  lemma SpacesDiffer(a: string, b: string, width: nat)
    requires a != "" && b != "" && a[0] != ' ' && b[0] != ' ' && |a| < |b|
    ensures Repeat(' ', width - |a|) + a != Repeat(' ', width - |b|) + b
  {
    var s, t := Repeat(' ', width - |a|) + a, Repeat(' ', width - |b|) + b;
    if |s| == |t| {
      assert t[width - |b|] == b[0] && s[width - |b|] == ' ';
    }
  }

  lemma FormStart(r: string, base: nat, upper: bool, prec: nat)
    requires base in {8, 16} && r != ""
    ensures var form := Form(r, base, upper, prec);
            && form != "" && form[0] == '0'
            && |form| == if base == 16 then Most(|r|, prec) + 2 else Most(|r| + 1, prec)
  {
  }

  /** What the buffer holds, read back to front. */
  ghost predicate BodyIs(body: string, r: string, m: nat, base: nat, upper: bool, taken: bool) {
    var n, prefix := |r|, Prefix(base, upper);
    if taken then
      && |body| == Most(m, |prefix|)
      && (m >= n + |prefix| ==> body == prefix + (Repeat('0', m - |prefix| - n) + r))
    else if m + |prefix| <= BUFFER_SIZE then body == prefix + (Repeat('0', m - n) + r)
    else |body| == BUFFER_SIZE && body[0] != ' ' && (base == 8 ==> body == Repeat('0', m - n) + r)
  }

  lemma BodyShape(d: string, base: nat, prec: nat, width: nat, flags: Flags, m: nat)
    requires base in {8, 16} && 0 < |d| <= 22 && |d| <= m <= BUFFER_SIZE && (prec > 0 ==> flags.precision)
    ensures BodyIs(Reverse(WithHash(d + Repeat('0', m - |d|), base, prec, width, flags)), Reverse(d), m, base,
                   flags.upper, !flags.precision && m == width)
  {
    if !flags.precision && m == width {
      BodyTaken(d, base, prec, width, flags, m);
    } else if m + |Prefix(base, flags.upper)| <= BUFFER_SIZE {
      BodyWhole(d, base, prec, width, flags, m);
    } else {
      BodyFull(d, base, prec, width, flags, m);
    }
  }

  /** Where the body is put in the width. */
  function Placed(body: string, width: nat, left: bool, zero: bool): string {
    if left then body + Repeat(' ', width - |body|) else if zero then body else Repeat(' ', width - |body|) + body
  }

  lemma PlacedBody(s: string, width: nat, flags: Flags)
    ensures Reversed(s, width, flags) == Placed(Reverse(s), width, flags.left, flags.zeroPad)
  {
  }

  lemma FilledForm(form: string, width: nat, left: bool)
    ensures Filled("", form, width, left, false) == Placed(form, width, left, false)
  {
    if left {
      assert "" + form == form;
    } else {
      assert Repeat(' ', width - |form|) + "" + form == Repeat(' ', width - |form|) + form;
    }
  }

  lemma LeftForm(body: string, r: string, base: nat, upper: bool, prec: nat, width: nat, isGiven: bool)
    requires base in {8, 16} && 0 < |r| <= 22 && r[0] != '0' && (prec > 0 ==> isGiven)
    requires BodyIs(body, r, |r|, base, upper, !isGiven && |r| == width)
    ensures Placed(body, width, true, false) == Placed(Form(r, base, upper, prec), width, true, false)
       <==> (isGiven || |r| != width) && prec <= (if base == 8 then |r| + 1 else |r|)
  {
    var prefix, form := Prefix(base, upper), Form(r, base, upper, prec);
    FormStart(r, base, upper, prec);
    if isGiven || |r| != width {
      assert Repeat('0', 0) + r == r && body == prefix + r;
      LeftFormExact(r, prefix, base, form, prec, width, upper);
      FilledForm(form, width, true);
    } else {
      assert |Placed(body, width, true, false)| < |r| + |prefix| <= |form|;
    }
  }

  lemma LeftFormExact(r: string, prefix: string, base: nat, form: string, prec: nat, width: nat, upper: bool)
    requires base in {8, 16} && r != "" && r[0] != '0'
    requires prefix == Prefix(base, upper) && form == Form(r, base, upper, prec)
    ensures prefix + r + Repeat(' ', width - |prefix + r|) == Filled("", form, width, true, false)
       <==> prec <= if base == 8 then |r| + 1 else |r|
  {
    var text, should := prefix + r + Repeat(' ', width - |prefix + r|), Filled("", form, width, true, false);
    assert should == form + Repeat(' ', width - |form|);
    if prec <= |r| {
      assert Repeat('0', prec - |r|) + r == r;
      assert form == prefix + r;
    } else if base == 8 && prec == |r| + 1 {
      assert form == prefix + r;
    } else {
      assert form[|prefix|] == '0' && text[|prefix|] == r[0];
    }
  }

  lemma ZeroForm(body: string, r: string, base: nat, upper: bool, width: nat, m: nat)
    requires base in {8, 16} && 0 < |r| <= 22 && m == Most(|r|, Least(width, BUFFER_SIZE))
    requires BodyIs(body, r, m, base, upper, m == width)
    ensures body == Prefix(base, upper) + (Repeat('0', width - |r| - |Prefix(base, upper)|) + r)
       <==> width < |r| || |r| + (if base == 8 then 1 else 2) <= width <= BUFFER_SIZE
  {
    var prefix := Prefix(base, upper);
    if width < |r| {
      assert Repeat('0', width - |r| - |prefix|) == "" == Repeat('0', m - |r|);
    }
  }

  lemma SpaceTaken(body: string, r: string, base: nat, upper: bool, width: nat)
    requires base in {8, 16} && 0 < |r| <= 22 && BodyIs(body, r, |r|, base, upper, true) && |r| == width
    ensures Placed(body, width, false, false) != Placed(Form(r, base, upper, 0), width, false, false)
  {
    FormStart(r, base, upper, 0);
    assert |Placed(body, width, false, false)| < |r| + |Prefix(base, upper)|;
  }

  lemma SpaceWhole(body: string, r: string, base: nat, upper: bool, prec: nat, width: nat, m: nat)
    requires base in {8, 16} && 0 < |r| <= 22 && m == Most(|r|, prec) && m + |Prefix(base, upper)| <= BUFFER_SIZE
    requires BodyIs(body, r, m, base, upper, false)
    ensures Placed(body, width, false, false) == Placed(Form(r, base, upper, prec), width, false, false)
       <==> base == 16 || prec <= |r|
  {
    var form := Form(r, base, upper, prec);
    FormStart(r, base, upper, prec);
    if prec <= |r| {
      assert Repeat('0', m - |r|) == Repeat('0', prec - |r|);
    } else if base == 8 {
      SpacesDiffer(form, body, width);
    }
  }

  lemma SpaceFull(body: string, r: string, base: nat, upper: bool, prec: nat, width: nat, m: nat)
    requires base in {8, 16} && 0 < |r| <= 22 && m == Most(|r|, Least(prec, BUFFER_SIZE))
    requires m + |Prefix(base, upper)| > BUFFER_SIZE && BodyIs(body, r, m, base, upper, false)
    ensures Placed(body, width, false, false) == Placed(Form(r, base, upper, prec), width, false, false)
       <==> base == 8 && prec == BUFFER_SIZE
  {
    var form := Form(r, base, upper, prec);
    FormStart(r, base, upper, prec);
    if base == 8 && prec == BUFFER_SIZE {
      assert body == form;
    } else {
      SpacesDiffer(body, form, width);
    }
  }

  lemma SpaceForm(body: string, r: string, base: nat, upper: bool, prec: nat, width: nat, isGiven: bool, m: nat)
    requires base in {8, 16} && 0 < |r| <= 22 && (prec > 0 ==> isGiven) && m == Most(|r|, Least(prec, BUFFER_SIZE))
    requires BodyIs(body, r, m, base, upper, !isGiven && m == width)
    ensures Placed(body, width, false, false) == Placed(Form(r, base, upper, prec), width, false, false)
       <==> (isGiven || |r| != width)
            && if base == 8 then prec <= |r| || prec == BUFFER_SIZE else prec <= 30
  {
    if !isGiven && m == width {
      SpaceTaken(body, r, base, upper, width);
    } else if m + |Prefix(base, upper)| <= BUFFER_SIZE {
      SpaceWhole(body, r, base, upper, prec, width, m);
    } else {
      SpaceFull(body, r, base, upper, prec, width, m);
    }
  }

  lemma FormOf(body: string, r: string, base: nat, prec: nat, width: nat, flags: Flags, m: nat)
    requires base in {8, 16} && 0 < |r| <= 22 && r[0] != '0' && m == Extent(|r|, prec, width, flags)
    requires (prec > 0 ==> flags.precision) && (flags.precision ==> !flags.zeroPad)
    requires BodyIs(body, r, m, base, flags.upper, !flags.precision && m == width)
    ensures Placed(body, width, flags.left, flags.zeroPad)
         == Alternative(r, base, flags.upper, prec, width, flags.left, flags.zeroPad)
       <==> FormFits(|r|, base, prec, width, flags)
  {
    if flags.left {
      OpenForm(r, base, flags.upper, prec, width, true, flags.zeroPad);
      LeftForm(body, r, base, flags.upper, prec, width, flags.precision);
    } else if flags.zeroPad {
      ZeroForm(body, r, base, flags.upper, width, m);
    } else {
      OpenForm(r, base, flags.upper, prec, width, false, false);
      SpaceForm(body, r, base, flags.upper, prec, width, flags.precision, m);
    }
  }

  lemma OpenForm(r: string, base: nat, upper: bool, prec: nat, width: nat, left: bool, zero: bool)
    requires left || !zero
    ensures Alternative(r, base, upper, prec, width, left, zero)
         == Placed(Form(r, base, upper, prec), width, left, false)
    ensures forall body: string :: left ==> Placed(body, width, left, zero) == Placed(body, width, left, false)
  {
    FilledForm(Form(r, base, upper, prec), width, left);
  }

  /**
   The alternative form of a number other than zero is the one of the standard exactly when prefix and
   zeros fit the buffer, no precision is aligned left, and the digits alone do not fill the width, or all but
   a part of the prefix.
   */
  lemma FormExact(v: u64, base: nat, prec: Option<nat>, width: nat, flags: Flags)
    requires v > 0 && base in {8, 16} && flags.hash && !flags.plus && !flags.space
    requires flags.precision == prec.Some? && (flags.precision ==> !flags.zeroPad)
    ensures Rendered(v, false, base, OrZero(prec), width, flags)
         == StandardAlternative(v, base, flags.upper, prec, width, flags.left, flags.zeroPad)
       <==> FormFits(|Collected(v, base, flags)|, base, OrZero(prec), width, flags)
  {
    AlternativeIs(v, base, prec, width, flags.left, flags.zeroPad, flags);
    LeadingParts(v, base, prec, flags);
    var body, r, m := HashedBody(v, base, OrZero(prec), width, flags);
    FormOf(body, r, base, OrZero(prec), width, flags, m);
  }

  lemma HashedBody(v: u64, base: nat, prec: nat, width: nat, flags: Flags)
    returns (body: string, r: string, m: nat)
    requires v > 0 && base in {8, 16} && flags.hash && !flags.plus && !flags.space && (prec > 0 ==> flags.precision)
    ensures Rendered(v, false, base, prec, width, flags) == Placed(body, width, flags.left, flags.zeroPad)
    ensures r == Reverse(Collected(v, base, flags)) && 0 < |r| <= 22 && m == Extent(|r|, prec, width, flags)
    ensures BodyIs(body, r, m, base, flags.upper, !flags.precision && m == width)
  {
    var d := Collected(v, base, flags);
    HashRendered(v, base, prec, width, flags);
    r, m := Reverse(d), Extent(|d|, prec, width, flags);
    body := BodyOfHash(d, base, prec, width, flags, m);
  }

  lemma BodyOfHash(d: string, base: nat, prec: nat, width: nat, flags: Flags, m: nat) returns (body: string)
    requires base in {8, 16} && 0 < |d| <= 22 && |d| <= m <= BUFFER_SIZE && (prec > 0 ==> flags.precision)
    ensures Reversed(WithHash(d + Repeat('0', m - |d|), base, prec, width, flags), width, flags)
         == Placed(body, width, flags.left, flags.zeroPad)
    ensures BodyIs(body, Reverse(d), m, base, flags.upper, !flags.precision && m == width)
  {
    var hashed := WithHash(d + Repeat('0', m - |d|), base, prec, width, flags);
    body := Reverse(hashed);
    BodyShape(d, base, prec, width, flags, m);
    PlacedBody(hashed, width, flags);
  }

  lemma {:induction false} NumeralStart(v: nat, base: nat, upper: bool)
    requires 2 <= base <= 16
    ensures Numeral(v, base, upper) != "" && Numeral(v, base, upper)[0] != ' '
    decreases v
  {
    if v < base {
    } else {
      Shrinks(v, base);
      NumeralStart(v / base, base, upper);
    }
  }

  // ----- directives

  lemma ZeroRendered(base: nat, prec: nat, width: nat, flags: Flags)
    requires 2 <= base <= 16
    ensures Rendered(0, false, base, prec, width, flags) == Rendered(0, false, base, prec, width, flags.(hash := false))
  {
  }

  /** A digit of zero is its own leading zero. */
  lemma ZeroDigitShown(base: nat, prec: Option<nat>, width: nat, upper: bool, left: bool, zero: bool)
    requires base in {8, 16} && prec != Some(0)
    ensures StandardAlternative(0, base, upper, prec, width, left, zero)
         == Filled("", StandardDigits(0, base, upper, prec), width, left, zero)
  {
    DigitIs(0, upper);
    assert StandardDigits(0, base, upper, prec)[0] == '0';
  }

  lemma ZeroPlain(base: nat, prec: Option<nat>, width: nat, flags: Flags)
    requires base in {8, 16} && flags.hash && !flags.plus && !flags.space
    requires flags.precision == prec.Some? && (flags.precision ==> !flags.zeroPad)
    ensures Rendered(0, false, base, OrZero(prec), width, flags)
         == Filled("", StandardDigits(0, base, flags.upper, prec), width, flags.left, flags.zeroPad)
       <==> Fits(|Collected(0, base, flags)|, false, OrZero(prec), width, flags)
  {
    var f := flags.(hash := false);
    ZeroRendered(base, OrZero(prec), width, flags);
    ConversionExact(0, false, base, OrZero(prec), width, f);
    NumberStandard(0, false, base, prec, width, f);
  }

  /** Zero has no prefix; the leading zero of an octal one is missing if a precision of zero takes its digit. */
  lemma ZeroExact(base: nat, prec: Option<nat>, width: nat, flags: Flags)
    requires base in {8, 16} && flags.hash && !flags.plus && !flags.space
    requires flags.precision == prec.Some? && (flags.precision ==> !flags.zeroPad)
    ensures Rendered(0, false, base, OrZero(prec), width, flags)
         == StandardAlternative(0, base, flags.upper, prec, width, flags.left, flags.zeroPad)
       <==> Fits(|Collected(0, base, flags)|, false, OrZero(prec), width, flags) && !(base == 8 && prec == Some(0))
  {
    ZeroPlain(base, prec, width, flags);
    if prec == Some(0) {
      NoDigitExact(base, width, flags);
    } else {
      ZeroDigitShown(base, prec, width, flags.upper, flags.left, flags.zeroPad);
    }
  }

  lemma NoDigitExact(base: nat, width: nat, flags: Flags)
    requires base in {8, 16} && flags.precision && !flags.zeroPad && !flags.plus && !flags.space
    ensures Fits(|Collected(0, base, flags)|, false, 0, width, flags)
    ensures StandardAlternative(0, base, flags.upper, Some(0), width, flags.left, false)
         == Filled("", StandardDigits(0, base, flags.upper, Some(0)), width, flags.left, false)
       <==> base == 16
  {
    NoDigit(width, flags);
  }

  lemma NoDigit(width: nat, flags: Flags)
    requires flags.precision && !flags.zeroPad
    ensures Filled("", "0" + "", width, flags.left, false) != Filled("", "", width, flags.left, false)
    ensures "0" + "" == "0"
  {
    assert '0' in Filled("", "0" + "", width, flags.left, false);
    assert '0' !in Filled("", "", width, flags.left, false);
  }

  /** Precision zero leaves the form of a number other than zero as it is, but switches zero padding off. */
  lemma PreciseForm(v: u64, base: nat, width: nat, flags: Flags)
    requires v > 0 && base in {8, 16} && flags.hash && !flags.plus && !flags.space && flags.precision && !flags.zeroPad
    ensures Rendered(v, false, base, 0, width, flags)
         == Alternative(Reverse(Collected(v, base, flags)), base, flags.upper, 0, width, flags.left, false)
  {
    FormExact(v, base, Some(0), width, flags);
    AlternativeIs(v, base, Some(0), width, flags.left, false, flags);
  }

  /** A negative precision is taken for zero. */
  lemma NegatedForm(v: u64, base: nat, width: nat, flags: Flags, zero: bool)
    requires base in {8, 16} && flags.hash && !flags.plus && !flags.space && flags.precision && !flags.zeroPad
    ensures Rendered(v, false, base, 0, width, flags)
         == StandardAlternative(v, base, flags.upper, None, width, flags.left, zero)
       <==> v != 0 && (zero && !flags.left ==> width <= |Collected(v, base, flags)| + if base == 8 then 1 else 2)
  {
    if v == 0 {
      NegatedZero(base, width, flags, zero);
    } else {
      PreciseForm(v, base, width, flags);
      OmittedForm(v, base, width, flags.left, zero, flags, flags.(precision := false));
      if zero && !flags.left {
        FormAgainst(Reverse(Collected(v, base, flags)), base, flags.upper, width);
      }
    }
  }

  lemma OmittedForm(v: u64, base: nat, width: nat, left: bool, zero: bool, flags: Flags, plain: Flags)
    requires v > 0 && base in {8, 16} && flags.precision && plain == flags.(precision := false)
    ensures Collected(v, base, flags) != ""
    ensures StandardAlternative(v, base, flags.upper, None, width, left, zero)
         == Alternative(Reverse(Collected(v, base, flags)), base, flags.upper, 0, width, left, zero)
  {
    AlternativeIs(v, base, None, width, left, zero, plain);
  }

  lemma FormAgainst(r: string, base: nat, upper: bool, width: nat)
    requires base in {8, 16} && r != ""
    ensures Alternative(r, base, upper, 0, width, false, false) == Alternative(r, base, upper, 0, width, false, true)
       <==> width <= |r| + if base == 8 then 1 else 2
  {
    ZerosAgainstSpaces(r, base, upper, width);
  }

  lemma ZerosAgainstSpaces(r: string, base: nat, upper: bool, width: nat)
    requires base in {8, 16} && r != ""
    ensures var prefix := Prefix(base, upper);
            Filled("", Form(r, base, upper, 0), width, false, false)
            == prefix + (Repeat('0', width - |r| - |prefix|) + r)
            <==> width <= |r| + |prefix|
  {
    var prefix, form := Prefix(base, upper), Form(r, base, upper, 0);
    assert form == prefix + r;
    FilledForm(form, width, false);
    var spaces, zeros := Placed(form, width, false, false), prefix + (Repeat('0', width - |r| - |prefix|) + r);
    if width <= |r| + |prefix| {
      assert spaces == form == zeros;
    } else {
      assert spaces[0] == ' ' && zeros[0] == '0';
    }
  }

  lemma NegatedZero(base: nat, width: nat, flags: Flags, zero: bool)
    requires base in {8, 16} && flags.hash && !flags.plus && !flags.space && flags.precision && !flags.zeroPad
    ensures Rendered(0, false, base, 0, width, flags)
         != StandardAlternative(0, base, flags.upper, None, width, flags.left, zero)
  {
    ZeroWritten(base, width, flags);
    ZeroAsked(base, flags.upper, width, flags.left, zero);
    DigitMissing(width, flags.left, zero);
  }

  lemma ZeroWritten(base: nat, width: nat, flags: Flags)
    requires base in {8, 16} && flags.hash && !flags.plus && !flags.space && flags.precision && !flags.zeroPad
    ensures Rendered(0, false, base, 0, width, flags) == Filled("", "", width, flags.left, false)
  {
    ZeroPlain(base, Some(0), width, flags);
    assert Collected(0, base, flags) == "" && Fits(0, false, 0, width, flags);
  }

  lemma ZeroAsked(base: nat, upper: bool, width: nat, left: bool, zero: bool)
    requires base in {8, 16}
    ensures StandardAlternative(0, base, upper, None, width, left, zero) == Filled("", "0", width, left, zero)
  {
    ZeroDigitShown(base, None, width, upper, left, zero);
    DigitIs(0, upper);
    assert StandardDigits(0, base, upper, None) == "" + "0";
  }

  lemma DigitMissing(width: nat, left: bool, zero: bool)
    ensures Filled("", "", width, left, false) != Filled("", "0", width, left, zero)
  {
    assert '0' !in Filled("", "", width, left, false);
    assert '0' in Filled("", "0", width, left, zero);
  }

  predicate NumberConforms(v: u64, base: nat, prec: Option<nat>, width: nat, flags: Flags, isNegated: bool, zero: bool)
    requires base in {8, 16}
  {
    var n := |Collected(v, base, flags)|;
    if isNegated then v != 0 && (zero && !flags.left ==> width <= n + if base == 8 then 1 else 2)
    else if v == 0 then Fits(n, false, OrZero(prec), width, flags) && !(base == 8 && prec == Some(0))
    else FormFits(n, base, OrZero(prec), width, flags)
  }

  /** When an octal or hexadecimal directive with `#` writes what the standard asks for. */
  predicate AlternativeConforms(d: Directive, args: seq<Arg>, wide: bool)
    requires d.spec in "oxX" && IsDefined(d, args, wide)
  {
    var prec := StandardPrecision(d.precision, After(d.width, args));
    var v := StandardValue(d, args, wide).value;
    0 <= v < TWO64 &&
    NumberConforms(v, StandardBase(d.spec), prec, StandardWidth(d.width, args), AskedFlags(d, args),
                   IsNegated(d.precision, After(d.width, args)), '0' in d.flags)
  }

  lemma AlternativeNumber(v: u64, base: nat, prec: Option<nat>, width: nat, flags: Flags, isNegated: bool, zero: bool)
    requires base in {8, 16} && flags.hash && !flags.plus && !flags.space
    requires (isNegated ==> flags.precision && prec.None?) && (!isNegated ==> (flags.precision <==> prec.Some?))
    requires flags.zeroPad == (zero && !flags.precision)
    ensures Rendered(v, false, base, OrZero(prec), width, flags)
         == StandardAlternative(v, base, flags.upper, prec, width, flags.left, zero && prec.None?)
       <==> NumberConforms(v, base, prec, width, flags, isNegated, zero)
  {
    if isNegated {
      NegatedForm(v, base, width, flags, zero);
    } else if v == 0 {
      ZeroExact(base, prec, width, flags);
    } else {
      FormExact(v, base, prec, width, flags);
    }
  }

  /**
   With `#`, octal and hexadecimal directives write what the standard asks for exactly when the alternative
   form fits (`FormExact`), zero keeps a digit, and a negative precision argument makes no difference.
   */
  lemma AlternativeExact(d: Directive, args: seq<Arg>, wide: bool)
    requires d.spec in "oxX" && '#' in d.flags && IsDefined(d, args, wide)
    ensures Convert(d, args, wide).Some?
    ensures StandardValue(d, args, wide).value >= 0
    ensures var prec, left := StandardPrecision(d.precision, After(d.width, args)), IsLeft(d, args);
            PieceText(Convert(d, args, wide).value.0)
            == StandardAlternative(StandardValue(d, args, wide).value, StandardBase(d.spec), d.spec == 'X', prec,
                                   StandardWidth(d.width, args), left, '0' in d.flags && prec.None?)
            <==> AlternativeConforms(d, args, wide)
  {
    IntegerConverted(d, args, wide);
    PrecisionIs(d.precision, After(d.width, args));
    ValueOfUnsigned(d, args, wide);
    HashAsked(d, args);
    var p := Convert(d, args, wide).value.0;
    NumberWritten(p, p.magnitude, p.base, p.prec, p.width, p.flags);
    AlternativeNumber(StandardValue(d, args, wide).value, StandardBase(d.spec),
                      StandardPrecision(d.precision, After(d.width, args)), StandardWidth(d.width, args),
                      AskedFlags(d, args), IsNegated(d.precision, After(d.width, args)), '0' in d.flags);
  }

  lemma NumberWritten(p: Piece, v: u64, base: nat, prec: nat, width: nat, flags: Flags)
    requires p == Number(v, false, base, prec, width, flags) && base in {8, 16}
    ensures PieceText(p) == Rendered(v, false, base, prec, width, flags)
  {
  }

  lemma HashAsked(d: Directive, args: seq<Arg>)
    requires d.spec in "oxX" && '#' in d.flags
    ensures var flags := AskedFlags(d, args);
            && flags.hash && !flags.plus && !flags.space && flags.upper == (d.spec == 'X')
            && flags.left == IsLeft(d, args) && flags.precision == d.precision.Some?
            && flags.zeroPad == ('0' in d.flags && !flags.precision)
    ensures StandardBase(d.spec) in {8, 16}
  {
  }

  /** "%#4x" of any number of four digits loses the first two of them. */
  lemma HashExample(v: u64)
    requires 0x1000 <= v < 0x1_0000
    ensures var flags := Flags(false, false, false, false, true, false, false);
            Rendered(v, false, 16, 0, 4, flags) != StandardAlternative(v, 16, false, None, 4, false, false)
  {
    var flags := Flags(false, false, false, false, true, false, false);
    FourDigits(v);
    FormExact(v, 16, None, 4, flags);
  }

  lemma FourDigits(v: nat)
    requires 0x1000 <= v < 0x1_0000
    ensures |LowDigits(v, 16, false)| == 4
  {
    var a := v / 16;
    var b := a / 16;
    var c := b / 16;
    assert 0x100 <= a < 0x1000 && 0x10 <= b < 0x100 && 1 <= c < 0x10 && c / 16 == 0;
    assert |LowDigits(c, 16, false)| == 1;
    assert |LowDigits(b, 16, false)| == 2;
    assert |LowDigits(a, 16, false)| == 3;
  }
}
