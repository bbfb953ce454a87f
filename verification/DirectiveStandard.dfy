/**
 Whole directives against section 7.21.6.1 of ISO/IEC 9899:2011. What the standard asks for is built
 from the characters of the directive and its arguments alone.
 */
module DirectiveStandard {
  import opened Bytes
  import opened LittleEndian
  import opened TinyPrintf
  import opened PrintfText
  import opened FormatScan
  import opened PrintfStandard

  // ----- numerals

  const LOWER: string := "0123456789abcdef"
  const UPPER: string := "0123456789ABCDEF"

  /** Most significant digit first. */
  function Numeral(v: nat, base: nat, upper: bool): string
    requires 2 <= base <= 16
  {
    var digit := if upper then UPPER[v % base] else LOWER[v % base];
    if v < base then [digit] else Numeral(v / base, base, upper) + [digit]
  }

  lemma DigitIs(d: nat, upper: bool)
    requires d < 16
    ensures DigitChar(d, upper) == if upper then UPPER[d] else LOWER[d]
  {
  }

  lemma {:induction false} NumeralReversed(v: nat, base: nat, upper: bool)
    requires 2 <= base <= 16 && v > 0
    ensures Reverse(LowDigits(v, base, upper)) == Numeral(v, base, upper)
    decreases v
  {
    DigitIs(v % base, upper);
    LowDigitsStep(v, base, upper);
    if v < base {
      Shrinks(v, base);
    } else {
      Shrinks(v, base);
      NumeralReversed(v / base, base, upper);
    }
  }

  lemma Shrinks(v: nat, base: nat)
    requires base >= 2 && v > 0
    ensures v / base < v && (v / base == 0 <==> v < base)
  {
    QuotientShrinks(v, base, v / base, v % base);
  }

  lemma QuotientShrinks(v: nat, base: nat, q: nat, r: nat)
    requires base >= 2 && v > 0 && v == base * q + r && r < base
    ensures q < v && (q == 0 <==> v < base)
  {
    assert base * q == 2 * q + (base - 2) * q;
    Away(base, q);
  }

  lemma LowDigitsStep(v: nat, base: nat, upper: bool)
    requires 2 <= base <= 16 && v > 0
    ensures Reverse(LowDigits(v, base, upper))
         == Reverse(LowDigits(v / base, base, upper)) + [DigitChar(v % base, upper)]
    ensures v / base == 0 ==> Reverse(LowDigits(v / base, base, upper)) == ""
  {
    var rest := LowDigits(v / base, base, upper);
    assert LowDigits(v, base, upper) == [DigitChar(v % base, upper)] + rest;
    assert ([DigitChar(v % base, upper)] + rest)[1..] == rest;
  }

  // ----- fields of a directive

  /** The number a numeral stands for. */
  function Decimal(text: string): nat {
    if text == "" then 0
    else
      var c := text[|text| - 1];
      10 * Decimal(text[..|text| - 1]) + if '0' <= c <= '9' then (c - '0') as nat else 0
  }

  lemma TenTimes(m: nat, n: nat, c: nat)
    requires n == m % TWO32
    ensures (10 * n + c) % TWO32 == (10 * m + c) % TWO32
  {
    var q := m / TWO32;
    assert m == TWO32 * q + n;
    assert 10 * m + c == TWO32 * (10 * q) + (10 * n + c);
    var k := (10 * n + c) / TWO32;
    assert 10 * m + c == TWO32 * (10 * q + k) + (10 * n + c) % TWO32;
    Residue(10 * m + c, TWO32, 10 * q + k, (10 * n + c) % TWO32);
  }

  lemma {:induction false} AtoiWraps(text: string)
    ensures Atoi(text) == Decimal(text) % TWO32
  {
    if text == "" {
    } else {
      AtoiWraps(text[..|text| - 1]);
      var c := text[|text| - 1];
      TenTimes(Decimal(text[..|text| - 1]), Atoi(text[..|text| - 1]), if '0' <= c <= '9' then (c - '0') as nat else 0);
    }
  }

  /** What a field takes from the arguments. */
  function After(x: Field, args: seq<Arg>): seq<Arg> { if x.Star? && args != [] then args[1..] else args }

  function StarOf(args: seq<Arg>): int { if args != [] && args[0].Int? then args[0].n else 0 }

  /** The width; a negative argument asks for its magnitude and for left alignment. */
  function StandardWidth(x: Field, args: seq<Arg>): nat {
    match x
    case Absent => 0
    case Digits(text) => Decimal(text) % TWO32
    case Star => if StarOf(args) < 0 then 0 - StarOf(args) else StarOf(args)
  }

  predicate IsLeft(d: Directive, args: seq<Arg>) { '-' in d.flags || (d.width.Star? && StarOf(args) < 0) }

  /** The precision; None if it is omitted, which a negative argument stands for. */
  function StandardPrecision(x: Option<Field>, args: seq<Arg>): Option<nat> {
    match x
    case None => None
    case Some(Absent) => Some(0)
    case Some(Digits(text)) => Some(Decimal(text) % TWO32)
    case Some(Star) => if StarOf(args) < 0 then None else Some(StarOf(args))
  }

  /** The precision argument is negative. */
  predicate IsNegated(x: Option<Field>, args: seq<Arg>) { x == Some(Star) && StarOf(args) < 0 }

  /** The arguments behind width and precision. */
  function Rest(d: Directive, args: seq<Arg>): seq<Arg> {
    var args1 := After(d.width, args);
    if d.precision.Some? then After(d.precision.value, args1) else args1
  }

  // ----- values

  /** `n` converted to a signed type of `size` values. */
  function Wrapped(n: int, size: nat): int
    requires size > 0
  {
    if n % size < size / 2 then n % size else n % size - size
  }

  /** The argument of `d` or `i` in the type its length modifier names. */
  function SignedValue(modifier: string, a: Arg, wide: bool): Option<int> {
    if modifier == "hh" then (if a.Int? then Some(Wrapped(a.n, 0x100)) else None)
    else if modifier == "h" then (if a.Int? then Some(Wrapped(a.n, 0x1_0000)) else None)
    else if modifier == "" then (if a.Int? then Some(a.n) else None)
    else if modifier in {"l", "t", "z"} || (modifier == "j" && wide) then (if a.Long? then Some(a.l) else None)
    else if modifier in {"ll", "j"} then (if a.LongLong? then Some(a.ll) else None)
    else None
  }

  /** The same for `u`, `o`, `x` and `X`. */
  function UnsignedValue(modifier: string, a: Arg, wide: bool): Option<int> {
    if modifier == "hh" then (if a.UInt? then Some(a.u % 0x100) else None)
    else if modifier == "h" then (if a.UInt? then Some(a.u % 0x1_0000) else None)
    else if modifier == "" then (if a.UInt? then Some(a.u) else None)
    else if modifier in {"l", "t", "z"} || (modifier == "j" && wide) then (if a.ULong? then Some(a.ul) else None)
    else if modifier in {"ll", "j"} then (if a.ULongLong? then Some(a.ull) else None)
    else None
  }

  predicate IsInteger(spec: char) { spec in "diuoxX" }

  /** The value an integer directive converts. */
  function StandardValue(d: Directive, args: seq<Arg>, wide: bool): Option<int> {
    var rest := Rest(d, args);
    if rest == [] then None
    else if d.spec in "di" then SignedValue(SpellLength(d.length), rest[0], wide)
    else UnsignedValue(SpellLength(d.length), rest[0], wide)
  }

  function StandardBase(spec: char): nat {
    if spec == 'o' then 8 else if spec == 'x' || spec == 'X' then 16 else 10
  }

  lemma ValueOfSigned(d: Directive, args: seq<Arg>, wide: bool)
    requires d.spec in "di" && StandardValue(d, args, wide).Some?
    ensures Rest(d, args) != [] && StandardBase(d.spec) == 10
    ensures StandardValue(d, args, wide) == SignedValue(SpellLength(d.length), Rest(d, args)[0], wide)
  {
  }

  lemma ValueOfUnsigned(d: Directive, args: seq<Arg>, wide: bool)
    requires d.spec in "uoxX" && StandardValue(d, args, wide).Some?
    ensures Rest(d, args) != []
    ensures StandardBase(d.spec) == if d.spec == 'u' then 10 else if d.spec == 'o' then 8 else 16
    ensures StandardValue(d, args, wide) == UnsignedValue(SpellLength(d.length), Rest(d, args)[0], wide)
  {
  }

  // ----- texts

  function StandardDigits(v: nat, base: nat, upper: bool, prec: Option<nat>): string
    requires 2 <= base <= 16
  {
    if v == 0 && prec == Some(0) then ""
    else
      var digits := Numeral(v, base, upper);
      Repeat('0', OrZero(prec) - |digits|) + digits
  }

  function StandardSign(value: int, d: Directive): string {
    if value < 0 then "-" else if d.spec !in "di" then ""
    else if '+' in d.flags then "+" else if ' ' in d.flags then " " else ""
  }

  /** Digits with sign, filled up to the width; zeros go between the two. */
  function StandardInteger(value: int, d: Directive, prec: Option<nat>, width: nat, left: bool): string {
    var digits := StandardDigits(if value < 0 then 0 - value else value, StandardBase(d.spec), d.spec == 'X', prec);
    Filled(StandardSign(value, d), digits, width, left, '0' in d.flags && prec.None?)
  }

  function Filled(sign: string, digits: string, width: nat, left: bool, zero: bool): string {
    var missing := width - |sign| - |digits|;
    if left then sign + digits + Repeat(' ', missing)
    else if zero then sign + Repeat('0', missing) + digits
    else Repeat(' ', missing) + sign + digits
  }

  /** The text of an integer, character or string directive. */
  function StandardDirective(d: Directive, args: seq<Arg>, wide: bool): string {
    var rest, left, width := Rest(d, args), IsLeft(d, args), StandardWidth(d.width, args);
    var prec := StandardPrecision(d.precision, After(d.width, args));
    if IsInteger(d.spec) then
      match StandardValue(d, args, wide)
      case Some(value) => StandardInteger(value, d, prec, width, left)
      case None => ""
    else if rest == [] then ""
    else if d.spec == 'c' && rest[0].Int? then StandardPadding([(rest[0].n % 0x100) as char], width, left)
    else if d.spec == 's' && rest[0].Str? then StandardPadding(StandardCut(rest[0].s, prec), width, left)
    else ""
  }

  // ----- what the conversions are called with

  /** The flags as they stand; signs are for signed numbers, `#` for octal and hexadecimal ones. */
  function AskedFlags(d: Directive, args: seq<Arg>): Flags {
    var signed := d.spec in "di";
    Flags('0' in d.flags && d.precision.None?, IsLeft(d, args), signed && '+' in d.flags, signed && ' ' in d.flags,
          d.spec in "oxX" && '#' in d.flags, d.spec == 'X', d.precision.Some?)
  }

  /** Whether width and argument have the types the directive asks for, and a magnitude. */
  predicate IsDefined(d: Directive, args: seq<Arg>, wide: bool) {
    var rest := Rest(d, args);
    && (d.width.Star? ==> args != [] && args[0].Int? && args[0].n != -0x8000_0000)
    && (d.precision == Some(Star) ==> After(d.width, args) != [] && After(d.width, args)[0].Int?)
    && (if IsInteger(d.spec) then
          StandardValue(d, args, wide).Some? && (d.spec in "di" ==> HasMagnitude(d, args, wide))
        else rest != [] && if d.spec == 'c' then rest[0].Int? else rest[0].Str?)
  }

  /** The value is not the most negative one of the type it is negated in. */
  predicate HasMagnitude(d: Directive, args: seq<Arg>, wide: bool)
    requires StandardValue(d, args, wide).Some?
  {
    var widest := Rest(d, args)[0].LongLong? || (Rest(d, args)[0].Long? && wide);
    StandardValue(d, args, wide).value > if widest then -0x8000_0000_0000_0000 else -0x8000_0000
  }

  lemma WidthIs(x: Field, args: seq<Arg>)
    ensures WidthOf(x, args).Some? <==> x.Star? ==> args != [] && args[0].Int? && args[0].n != -0x8000_0000
    ensures WidthOf(x, args).Some? ==>
              WidthOf(x, args) == Some((StandardWidth(x, args), x.Star? && StarOf(args) < 0, After(x, args)))
  {
    if x.Digits? { AtoiWraps(x.text); }
  }

  lemma PrecisionIs(x: Option<Field>, args: seq<Arg>)
    ensures PrecisionOf(x, args).Some? <==> x == Some(Star) ==> args != [] && args[0].Int?
    ensures PrecisionOf(x, args).Some? ==>
              PrecisionOf(x, args)
              == Some((OrZero(StandardPrecision(x, args)), if x.Some? then After(x.value, args) else args))
    ensures IsNegated(x, args) <==> x.Some? && StandardPrecision(x, args).None?
  {
    if x.Some? && x.value.Digits? { AtoiWraps(x.value.text); }
  }

  lemma WrappedIs(n: int, size: nat)
    requires size > 0 && size % 2 == 0
    ensures SignExtend(n, size) == Wrapped(n, size)
  {
    var q, r := n / size, n % size;
    assert n == size * q + r;
    if r < size / 2 {
      assert n + size / 2 == size * q + (r + size / 2);
      Residue(n + size / 2, size, q, r + size / 2);
    } else {
      assert n + size / 2 == size * (q + 1) + (r - size / 2);
      Residue(n + size / 2, size, q + 1, r - size / 2);
    }
  }

  lemma Residue(n: int, size: nat, q: int, r: nat)
    requires r < size && n == size * q + r
    ensures n % size == r
  {
    var d := n / size - q;
    assert n == size * (n / size) + n % size;
    assert size * d == r - n % size;
    Away(size, d);
  }

  lemma Away(size: nat, d: int)
    ensures d > 0 ==> size * d >= size
    ensures d < 0 ==> size * d <= 0 - size
    ensures d == 0 ==> size * d == 0
  {
  }

  lemma SignedIs(l: Length, a: Arg, wide: bool)
    ensures SignedArg(SizeOf(l, wide), a) == SignedValue(SpellLength(l), a, wide)
  {
    if a.Int? {
      WrappedIs(a.n, 0x100);
      WrappedIs(a.n, 0x1_0000);
    }
  }

  lemma UnsignedIs(l: Length, a: Arg, wide: bool)
    ensures UnsignedArg(SizeOf(l, wide), a) == UnsignedValue(SpellLength(l), a, wide)
  {
  }

  /** The last step of an integer directive, for resolved width, precision and arguments. */
  lemma SignedSpecified(spec: char, l: Length, width: nat, prec: nat, f: Flags, args: seq<Arg>, wide: bool)
    requires spec in "di"
    ensures var value := if args == [] then None else SignedValue(SpellLength(l), args[0], wide);
            var p := Specified(spec, SizeOf(l, wide), width, prec, f, args, wide);
            && (p.Some? <==> value.Some? && value.value > MostNegative(SizeOf(l, wide), wide))
            && (p.Some? ==>
                  && 0 - TWO63 < value.value < TWO63
                  && p.value.0 == Number(if value.value < 0 then 0 - value.value else value.value, value.value < 0, 10,
                                         prec, width, SignedFlags(f)))
  {
    if args != [] { SignedIs(l, args[0], wide); }
  }

  lemma UnsignedSpecified(spec: char, l: Length, width: nat, prec: nat, f: Flags, args: seq<Arg>, wide: bool)
    requires spec in "uoxX"
    ensures var value := if args == [] then None else UnsignedValue(SpellLength(l), args[0], wide);
            var p := Specified(spec, SizeOf(l, wide), width, prec, f, args, wide);
            && (p.Some? <==> value.Some?)
            && (p.Some? ==>
                  && 0 <= value.value < TWO64
                  && p.value.0 == Number(value.value, false, StandardBase(spec), prec, width, UnsignedFlags(f, spec)))
  {
    if args != [] { UnsignedIs(l, args[0], wide); }
  }

  /** A directive with width and precision resolved. */
  lemma Resolved(d: Directive, args: seq<Arg>, wide: bool)
    ensures var width, prec := WidthOf(d.width, args), PrecisionOf(d.precision, After(d.width, args));
            && (Convert(d, args, wide).Some? ==> width.Some? && prec.Some?)
            && (width.Some? && prec.Some? ==>
                  Convert(d, args, wide)
                  == Specified(d.spec, SizeOf(d.length, wide), StandardWidth(d.width, args),
                               OrZero(StandardPrecision(d.precision, After(d.width, args))),
                               FlagsOf(d.flags, d.width.Star? && StarOf(args) < 0, d.precision.Some?),
                               Rest(d, args), wide))
  {
    WidthIs(d.width, args);
    PrecisionIs(d.precision, After(d.width, args));
  }

  lemma FlagsAre(d: Directive, args: seq<Arg>)
    requires IsInteger(d.spec)
    ensures var f := FlagsOf(d.flags, d.width.Star? && StarOf(args) < 0, d.precision.Some?);
            AskedFlags(d, args) == if d.spec in "di" then SignedFlags(f) else UnsignedFlags(f, d.spec)
  {
  }

  /** The magnitude is missing for the type of the argument. */
  lemma MostNegativeIs(l: Length, a: Arg, wide: bool)
    requires SignedValue(SpellLength(l), a, wide).Some?
    ensures MostNegative(SizeOf(l, wide), wide)
         == if a.LongLong? || (a.Long? && wide) then -0x8000_0000_0000_0000 else -0x8000_0000
  {
  }

  /** The piece an integer directive is converted to. */
  lemma IntegerConverted(d: Directive, args: seq<Arg>, wide: bool)
    requires IsInteger(d.spec)
    ensures Convert(d, args, wide).Some? <==> IsDefined(d, args, wide)
    ensures Convert(d, args, wide).Some? ==>
              var value := StandardValue(d, args, wide).value;
              var prec := StandardPrecision(d.precision, After(d.width, args));
              && 0 - TWO63 < value < TWO64
              && Convert(d, args, wide).value.0
                 == Number(if value < 0 then 0 - value else value, value < 0, StandardBase(d.spec), OrZero(prec),
                           StandardWidth(d.width, args), AskedFlags(d, args))
  {
    var rest := Rest(d, args);
    var prec := OrZero(StandardPrecision(d.precision, After(d.width, args)));
    var f := FlagsOf(d.flags, d.width.Star? && StarOf(args) < 0, d.precision.Some?);
    Resolved(d, args, wide);
    FlagsAre(d, args);
    WidthIs(d.width, args);
    PrecisionIs(d.precision, After(d.width, args));
    if d.spec in "di" {
      SignedSpecified(d.spec, d.length, StandardWidth(d.width, args), prec, f, rest, wide);
      if rest != [] && SignedValue(SpellLength(d.length), rest[0], wide).Some? {
        MostNegativeIs(d.length, rest[0], wide);
      }
    } else {
      UnsignedSpecified(d.spec, d.length, StandardWidth(d.width, args), prec, f, rest, wide);
    }
  }

  lemma TextConverted(d: Directive, args: seq<Arg>, wide: bool)
    requires d.spec in "cs"
    ensures Convert(d, args, wide).Some? <==> IsDefined(d, args, wide)
    ensures Convert(d, args, wide).Some? ==>
              var prec := StandardPrecision(d.precision, After(d.width, args));
              var p := Convert(d, args, wide).value.0;
              && (d.spec == 'c' ==>
                    && p.Character? && p.c == (Rest(d, args)[0].n % 0x100) as char
                    && p.width == StandardWidth(d.width, args) && p.flags.left == IsLeft(d, args))
              && (d.spec == 's' ==>
                    && p.Text? && p.s == Rest(d, args)[0].s && p.prec == OrZero(prec)
                    && p.width == StandardWidth(d.width, args) && p.flags.left == IsLeft(d, args)
                    && p.flags.precision == d.precision.Some?)
  {
    WidthIs(d.width, args);
    PrecisionIs(d.precision, After(d.width, args));
  }

  // ----- the text of the standard, in the terms of the conversions

  lemma DigitsAre(v: u64, base: nat, prec: Option<nat>, flags: Flags)
    requires 8 <= base <= 16 && flags.precision == prec.Some?
    ensures var digits := Collected(v, base, flags);
            Repeat('0', OrZero(prec) - |digits|) + Reverse(digits) == StandardDigits(v, base, flags.upper, prec)
  {
    var digits := Collected(v, base, flags);
    if v > 0 {
      NumeralReversed(v, base, flags.upper);
      assert |Numeral(v, base, flags.upper)| == |Reverse(digits)| == |digits|;
    } else {
      DigitIs(0, flags.upper);
      ZeroDigits(digits);
    }
  }

  lemma ZeroDigits(digits: string)
    requires |digits| <= 1
    ensures Reverse(digits) == digits
    ensures forall n :: n <= 0 ==> Repeat('0', n) + digits == digits
    ensures digits == "" ==> forall n: nat :: n > 0 ==> Repeat('0', n) == Repeat('0', n - 1) + "0"
  {
    if digits != "" { assert digits[1..] == "" && "" + [digits[0]] == digits; }
  }

  lemma NumberStandard(v: u64, negative: bool, base: nat, prec: Option<nat>, width: nat, flags: Flags)
    requires 8 <= base <= 16 && flags.precision == prec.Some?
    ensures Standard(v, negative, base, OrZero(prec), width, flags)
         == Filled(Sign(negative, flags), StandardDigits(v, base, flags.upper, prec), width, flags.left, flags.zeroPad)
  {
    DigitsAre(v, base, prec, flags);
    FilledText(Collected(v, base, flags), negative, OrZero(prec), width, flags,
               StandardDigits(v, base, flags.upper, prec));
  }

  lemma FilledText(digits: string, negative: bool, prec: nat, width: nat, flags: Flags, long: string)
    requires long == Repeat('0', prec - |digits|) + Reverse(digits)
    ensures StandardText(digits, negative, prec, width, flags)
         == Filled(Sign(negative, flags), long, width, flags.left, flags.zeroPad)
  {
    AlignedIs(Sign(negative, flags), long, width, flags);
  }

  lemma AlignedIs(sign: string, digits: string, width: nat, flags: Flags)
    ensures Aligned(sign, digits, width, flags) == Filled(sign, digits, width, flags.left, flags.zeroPad)
  {
  }

  lemma IntegerStandard(d: Directive, args: seq<Arg>, value: int, prec: Option<nat>, width: nat)
    requires IsInteger(d.spec) && 0 - TWO63 < value < TWO64
    requires prec == StandardPrecision(d.precision, After(d.width, args))
    ensures var p := Number(if value < 0 then 0 - value else value, value < 0, StandardBase(d.spec), OrZero(prec),
                            width, AskedFlags(d, args));
            StandardPiece(p, prec, '0' in d.flags) == StandardInteger(value, d, prec, width, IsLeft(d, args))
  {
    var flags := AskedFlags(d, args).(zeroPad := '0' in d.flags && prec.None?, precision := prec.Some?);
    NumberStandard(if value < 0 then 0 - value else value, value < 0, StandardBase(d.spec), prec, width, flags);
    SignIs(value, d, args, flags);
  }

  lemma SignIs(value: int, d: Directive, args: seq<Arg>, flags: Flags)
    requires flags.plus == AskedFlags(d, args).plus && flags.space == AskedFlags(d, args).space
    ensures Sign(value < 0, flags) == StandardSign(value, d)
  {
  }

  /** When a directive without `#` writes what the standard asks for. */
  predicate DirectiveConforms(d: Directive, args: seq<Arg>, wide: bool)
    requires IsDefined(d, args, wide)
  {
    var prec, width := StandardPrecision(d.precision, After(d.width, args)), StandardWidth(d.width, args);
    var isNegated := IsNegated(d.precision, After(d.width, args));
    if IsInteger(d.spec) then
      var value := StandardValue(d, args, wide).value;
      IntegerConforms(if value < 0 then 0 - value else value, value < 0, StandardBase(d.spec), prec, width,
                      AskedFlags(d, args), isNegated, '0' in d.flags)
    else if d.spec == 's' then
      var s := Rest(d, args)[0].s;
      if isNegated then Blank(s, width)
      else var n := |StandardCut(s, prec)|; n < TWO32 || width <= n % TWO32
    else true
  }

  /** Digits and sign fit the buffer; a negated precision makes no difference. */
  predicate IntegerConforms(v: nat, negative: bool, base: nat, prec: Option<nat>, width: nat, flags: Flags,
                            isNegated: bool, zero: bool)
  {
    8 <= base <= 16 && v < TWO64 &&
    if isNegated then v != 0 && NoZeros(v, negative, base, width, flags.(zeroPad := zero, precision := false))
    else Fits(|Collected(v, base, flags)|, negative, OrZero(prec), width, flags)
  }

  lemma NumberExact(v: u64, negative: bool, base: nat, prec: Option<nat>, width: nat, flags: Flags,
                    isNegated: bool, zero: bool)
    requires 8 <= base <= 16 && !flags.hash && width < TWO32
    requires (isNegated ==> flags.precision && prec.None?) && (!isNegated ==> (flags.precision <==> prec.Some?))
    requires flags.zeroPad == (zero && !flags.precision)
    ensures var p := Number(v, negative, base, OrZero(prec), width, flags);
            PieceText(p) == StandardPiece(p, prec, zero)
            <==> IntegerConforms(v, negative, base, prec, width, flags, isNegated, zero)
  {
    PieceExact(Number(v, negative, base, OrZero(prec), width, flags), prec, zero, isNegated, flags.precision);
  }

  lemma IntegerExact(d: Directive, args: seq<Arg>, wide: bool)
    requires IsInteger(d.spec) && '#' !in d.flags && IsDefined(d, args, wide)
    ensures Convert(d, args, wide).Some?
    ensures PieceText(Convert(d, args, wide).value.0) == StandardDirective(d, args, wide)
       <==> DirectiveConforms(d, args, wide)
  {
    IntegerConverted(d, args, wide);
    var value := StandardValue(d, args, wide).value;
    var prec, width := StandardPrecision(d.precision, After(d.width, args)), StandardWidth(d.width, args);
    IntegerMatches(d, args, wide, value, prec, width);
    assert Convert(d, args, wide).value.0
        == Number(if value < 0 then 0 - value else value, value < 0, StandardBase(d.spec), OrZero(prec), width,
                  AskedFlags(d, args));
  }

  lemma DirectiveIs(d: Directive, args: seq<Arg>, wide: bool, value: int, prec: Option<nat>, width: nat)
    requires IsInteger(d.spec) && IsDefined(d, args, wide) && StandardValue(d, args, wide) == Some(value)
    requires prec == StandardPrecision(d.precision, After(d.width, args)) && width == StandardWidth(d.width, args)
    ensures StandardDirective(d, args, wide) == StandardInteger(value, d, prec, width, IsLeft(d, args))
    ensures DirectiveConforms(d, args, wide)
       <==> IntegerConforms(if value < 0 then 0 - value else value, value < 0, StandardBase(d.spec), prec, width,
                            AskedFlags(d, args), IsNegated(d.precision, After(d.width, args)), '0' in d.flags)
  {
  }

  lemma IntegerMatches(d: Directive, args: seq<Arg>, wide: bool, value: int, prec: Option<nat>, width: nat)
    requires '#' !in d.flags
    requires IsInteger(d.spec) && IsDefined(d, args, wide) && StandardValue(d, args, wide) == Some(value)
    requires prec == StandardPrecision(d.precision, After(d.width, args)) && width == StandardWidth(d.width, args)
    requires 0 - TWO63 < value < TWO64
    ensures var p := Number(if value < 0 then 0 - value else value, value < 0, StandardBase(d.spec), OrZero(prec),
                            width, AskedFlags(d, args));
            PieceText(p) == StandardDirective(d, args, wide) <==> DirectiveConforms(d, args, wide)
  {
    var flags, isNegated := AskedFlags(d, args), IsNegated(d.precision, After(d.width, args));
    DirectiveIs(d, args, wide, value, prec, width);
    PrecisionIs(d.precision, After(d.width, args));
    WidthBounded(d.width, args);
    IntegerStandard(d, args, value, prec, width);
    SomeNumber(if value < 0 then 0 - value else value, value < 0, StandardBase(d.spec), prec, width, flags,
               isNegated, '0' in d.flags, StandardInteger(value, d, prec, width, IsLeft(d, args)));
  }

  lemma SomeNumber(v: u64, negative: bool, base: nat, prec: Option<nat>, width: nat, flags: Flags,
                   isNegated: bool, zero: bool, text: string)
    requires 8 <= base <= 16 && !flags.hash && width < TWO32
    requires (isNegated ==> flags.precision && prec.None?) && (!isNegated ==> (flags.precision <==> prec.Some?))
    requires flags.zeroPad == (zero && !flags.precision)
    requires text == StandardPiece(Number(v, negative, base, OrZero(prec), width, flags), prec, zero)
    ensures PieceText(Number(v, negative, base, OrZero(prec), width, flags)) == text
       <==> IntegerConforms(v, negative, base, prec, width, flags, isNegated, zero)
  {
    NumberExact(v, negative, base, prec, width, flags, isNegated, zero);
  }

  lemma WidthBounded(x: Field, args: seq<Arg>)
    ensures StandardWidth(x, args) < TWO32
  {
  }

  lemma CharacterExact(d: Directive, args: seq<Arg>, wide: bool)
    requires d.spec == 'c' && IsDefined(d, args, wide)
    ensures Convert(d, args, wide).Some?
    ensures PieceText(Convert(d, args, wide).value.0) == StandardDirective(d, args, wide)
  {
    TextConverted(d, args, wide);
    WidthBounded(d.width, args);
    TextExact([(Rest(d, args)[0].n % 0x100) as char], StandardWidth(d.width, args), IsLeft(d, args));
  }

  lemma StringExact(d: Directive, args: seq<Arg>, wide: bool)
    requires d.spec == 's' && IsDefined(d, args, wide)
    ensures Convert(d, args, wide).Some?
    ensures PieceText(Convert(d, args, wide).value.0) == StandardDirective(d, args, wide)
       <==> DirectiveConforms(d, args, wide)
  {
    var args1 := After(d.width, args);
    var prec := StandardPrecision(d.precision, args1);
    PrecisionIs(d.precision, args1);
    TextConverted(d, args, wide);
    WidthBounded(d.width, args);
    PieceExact(Convert(d, args, wide).value.0, prec, '0' in d.flags, IsNegated(d.precision, args1), d.precision.Some?);
  }

  /**
   A directive writes what the standard asks for exactly when width and precision fit the digit buffer
   and no precision is combined with left alignment (`PrintfText.ConversionExact`), and when a negative
   precision argument, which is taken for zero instead of as omitted, makes no difference.
   */
  lemma DirectiveExact(d: Directive, args: seq<Arg>, wide: bool)
    requires Legal(d) && d.spec in "diuoxXcs" && '#' !in d.flags
    ensures Convert(d, args, wide).Some? <==> IsDefined(d, args, wide)
    ensures IsDefined(d, args, wide) ==>
              (PieceText(Convert(d, args, wide).value.0) == StandardDirective(d, args, wide)
               <==> DirectiveConforms(d, args, wide))
  {
    if IsInteger(d.spec) {
      IntegerConverted(d, args, wide);
      if IsDefined(d, args, wide) { IntegerExact(d, args, wide); }
    } else {
      TextConverted(d, args, wide);
      if IsDefined(d, args, wide) {
        if d.spec == 'c' { CharacterExact(d, args, wide); } else { StringExact(d, args, wide); }
      }
    }
  }
}
