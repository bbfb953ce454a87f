/** What the output functions write, against the text section 7.21.6.1 of ISO/IEC 9899:2011 asks for. */
module PrintfStandard {
  import opened Bytes
  import opened LittleEndian
  import opened TinyPrintf
  import opened PrintfText
  import opened FormatScan

  function OrZero(x: Option<nat>): nat { if x.Some? then x.value else 0 }

  function StandardPadding(s: string, width: nat, left: bool): string {
    if left then s + Repeat(' ', width - |s|) else Repeat(' ', width - |s|) + s
  }

  function StandardCut(s: string, prec: Option<nat>): string {
    if prec.Some? && prec.value < |s| then s[..prec.value] else s
  }

  /** The text of an integer, character or string directive, for the value, width and alignment of its piece. */
  function StandardPiece(p: Piece, prec: Option<nat>, zero: bool): string {
    match p
    case Literal(c) => [c]
    case Number(v, negative, base, _, width, flags) =>
      if 8 <= base <= 16 then
        Standard(v, negative, base, OrZero(prec), width, flags.(zeroPad := zero && prec.None?, precision := prec.Some?))
      else
        ""
    case Text(s, _, width, flags) => StandardPadding(StandardCut(s, prec), width, flags.left)
    case Character(c, width, flags) => StandardPadding([c], width, flags.left)
  }

  // ----- numbers

  /** Nothing but the digits and the sign, or the width does not matter for the zeros. */
  predicate NoZeros(v: u64, negative: bool, base: nat, width: nat, flags: Flags)
    requires 8 <= base <= 16
  {
    flags.zeroPad && !flags.left ==> width <= |Sign(negative, flags)| + |Collected(v, base, flags)|
  }

  /** A negative precision is taken for zero: that is right unless the value is zero or zeros should fill the width. */
  lemma NegatedExact(v: u64, negative: bool, base: nat, width: nat, flags: Flags)
    requires 8 <= base <= 16 && !flags.hash && !flags.precision
    ensures Rendered(v, negative, base, 0, width, flags.(precision := true, zeroPad := false))
         == Standard(v, negative, base, 0, width, flags)
       <==> v != 0 && NoZeros(v, negative, base, width, flags)
  {
    NegatedFits(v, negative, base, width, flags.(precision := true, zeroPad := false));
    if v == 0 {
      ZeroShown(negative, base, width, flags);
    } else {
      NegatedDigits(v, negative, base, width, flags);
    }
  }

  lemma NegatedDigits(v: u64, negative: bool, base: nat, width: nat, flags: Flags)
    requires 8 <= base <= 16 && v != 0
    ensures Standard(v, negative, base, 0, width, flags.(precision := true, zeroPad := false))
         == Standard(v, negative, base, 0, width, flags)
       <==> NoZeros(v, negative, base, width, flags)
  {
    var g := flags.(precision := true, zeroPad := false);
    assert Collected(v, base, g) == Collected(v, base, flags) != "";
    DigitsShown(Collected(v, base, flags), negative, width, flags);
    SamePlain(Collected(v, base, flags), negative, width, flags);
  }

  /** The precision flag alone does not matter for given digits. */
  lemma SamePlain(d: string, negative: bool, width: nat, flags: Flags)
    ensures StandardText(d, negative, 0, width, flags.(precision := true, zeroPad := false))
         == StandardText(d, negative, 0, width, flags.(zeroPad := false))
  {
  }

  /** Precision zero fits the digit buffer. */
  lemma NegatedFits(v: u64, negative: bool, base: nat, width: nat, flags: Flags)
    requires 8 <= base <= 16 && !flags.hash && flags.precision && !flags.zeroPad
    ensures Rendered(v, negative, base, 0, width, flags) == Standard(v, negative, base, 0, width, flags)
  {
    ConversionExact(v, negative, base, 0, width, flags);
    DigitsFit(v, base, flags);
  }

  /** Zero has a digit, but not with precision zero. */
  lemma ZeroShown(negative: bool, base: nat, width: nat, flags: Flags)
    requires 8 <= base <= 16 && !flags.precision
    ensures Standard(0, negative, base, 0, width, flags.(precision := true, zeroPad := false))
         != Standard(0, negative, base, 0, width, flags)
  {
    var g := flags.(precision := true, zeroPad := false);
    var sign := Sign(negative, flags);
    var short, long := Standard(0, negative, base, 0, width, g), Standard(0, negative, base, 0, width, flags);
    assert Collected(0, base, g) == "" && Reverse("") == "" && Repeat('0', 0) == "";
    assert '0' !in short;
    assert Collected(0, base, flags) == "0" && Reverse("0") == "" + "0";
    assert '0' in long;
  }

  lemma DigitsShown(d: string, negative: bool, width: nat, flags: Flags)
    requires d != ""
    ensures StandardText(d, negative, 0, width, flags.(zeroPad := false)) == StandardText(d, negative, 0, width, flags)
       <==> (flags.zeroPad && !flags.left ==> width <= |Sign(negative, flags)| + |d|)
  {
    NoLeading(d);
    if flags.zeroPad && !flags.left {
      SpacesAgainstZeros(Sign(negative, flags), Reverse(d), width - |Sign(negative, flags)| - |d|);
    }
  }

  lemma NoLeading(d: string)
    ensures Repeat('0', 0 - |d|) + Reverse(d) == Reverse(d)
  {
  }

  lemma SpacesAgainstZeros(sign: string, r: string, pad: int)
    requires |sign| <= 1 && '0' !in sign
    ensures Repeat(' ', pad) + sign + r == sign + Repeat('0', pad) + r <==> pad <= 0
  {
    var spaces, zeros := Repeat(' ', pad) + sign + r, sign + Repeat('0', pad) + r;
    if pad > 0 {
      assert zeros[|sign|] == '0';
      assert spaces[|sign|] == if |sign| < pad then ' ' else sign[|sign| - pad];
    } else {
      assert spaces == sign + r == zeros;
    }
  }

  // ----- strings

  /** Spaces alone, not more than the width. */
  predicate Blank(s: string, width: nat) { s == Repeat(' ', |s|) && |s| <= width }

  /** A negative precision of a string writes nothing of it. */
  lemma NegatedTextExact(s: string, width: u32, left: bool)
    ensures Padding("", width, left) == StandardPadding(s, width, left) <==> Blank(s, width)
  {
    var written, should := Padding("", width, left), StandardPadding(s, width, left);
    assert written == Repeat(' ', width);
    if written == should {
      assert |s| <= width;
      var at := if left then 0 else width - |s|;
      assert s == should[at..at + |s|] == written[at..at + |s|];
    }
  }

  /** Otherwise only a string of 2^32 characters or more is padded wrongly. */
  lemma TextExact(s: string, width: u32, left: bool)
    ensures Padding(s, width, left) == StandardPadding(s, width, left) <==> |s| < TWO32 || width <= |s| % TWO32
  {
    if |s| < TWO32 {
      assert |s| % TWO32 == |s|;
    } else {
      assert Repeat(' ', width - |s|) == "";
      assert |Padding(s, width, left)| == |s| + |Repeat(' ', width - |s| % TWO32)|;
      if width <= |s| % TWO32 { assert Repeat(' ', width - |s| % TWO32) == ""; }
    }
  }

  // ----- directives

  /** When the text of a directive without `#` is the one of the standard. */
  predicate Conforms(p: Piece, zero: bool, isNegated: bool) {
    match p
    case Literal(_) => true
    case Number(v, negative, base, prec, width, flags) =>
      8 <= base <= 16 &&
      if isNegated then v != 0 && NoZeros(v, negative, base, width, flags.(zeroPad := zero, precision := false))
      else Fits(|Collected(v, base, flags)|, negative, prec, width, flags)
    case Text(s, prec, width, flags) =>
      if isNegated then Blank(s, width)
      else var n := |Cut(s, prec, flags)|; n < TWO32 || width <= n % TWO32
    case Character(_, _, _) => true
  }

  lemma PieceExact(p: Piece, prec: Option<nat>, zero: bool, isNegated: bool, isGiven: bool)
    requires !p.Literal? && (isNegated ==> isGiven && prec.None?) && (!isNegated ==> (isGiven <==> prec.Some?))
    requires match p {
               case Literal(_) => true
               case Number(_, _, base, n, width, flags) =>
                 && 8 <= base <= 16 && !flags.hash && n == OrZero(prec) && width < TWO32
                 && flags.precision == isGiven && flags.zeroPad == (zero && !isGiven)
               case Text(_, n, width, flags) => n == OrZero(prec) && width < TWO32 && flags.precision == isGiven
               case Character(_, width, _) => width < TWO32
             }
    ensures PieceText(p) == StandardPiece(p, prec, zero) <==> Conforms(p, zero, isNegated)
  {
    match p
    case Number(v, negative, base, n, width, flags) =>
      if isNegated {
        NegatedExact(v, negative, base, width, flags.(zeroPad := zero, precision := false));
        assert flags.(zeroPad := zero, precision := false).(precision := true, zeroPad := false) == flags;
      } else {
        ConversionExact(v, negative, base, n, width, flags);
        assert flags.(zeroPad := zero && prec.None?, precision := prec.Some?) == flags;
      }
    case Text(s, n, width, flags) =>
      if isNegated {
        NegatedTextExact(s, width, flags.left);
        assert Cut(s, n, flags) == "";
      } else {
        TextExact(Cut(s, n, flags), width, flags.left);
        assert Cut(s, n, flags) == StandardCut(s, prec);
      }
    case Character(c, width, flags) =>
      TextExact([c], width, flags.left);
  }
}
