/**
 Format strings: how they are scanned, how directives are spelled, and what they ask for. Scanning and
 spelling are inverse. The directives are those of section 7.21.6.1 of ISO/IEC 9899:2011 without the
 floating-point ones; an unknown specifier stands for itself.
 */
module FormatScan {
  import opened Bytes
  import opened LittleEndian
  import opened TinyPrintf

  /** A width or precision: not there, decimal digits, or taken from the arguments. */
  datatype Field = Absent | Digits(text: string) | Star

  datatype Length = NoLength | H | HH | L | LL | T | J | Z

  datatype Directive = Directive(flags: string, width: Field, precision: Option<Field>, length: Length, spec: char)

  datatype Item = Ordinary(c: char) | Percent(d: Directive)

  predicate IsFlag(c: char) { c == '0' || c == '-' || c == '+' || c == ' ' || c == '#' }

  predicate IsDigit(c: char) { '0' <= c <= '9' }

  predicate IsFloat(c: char) { c in "fFeEgG" }

  // ----- scanning

  /** The longest prefix of flags. */
  function TakeFlags(s: string): (r: string)
    ensures r <= s && (forall i :: 0 <= i < |r| ==> IsFlag(r[i])) && (|r| < |s| ==> !IsFlag(s[|r|]))
  {
    if s != "" && IsFlag(s[0]) then [s[0]] + TakeFlags(s[1..]) else ""
  }

  /** The longest prefix of digits. */
  function TakeDigits(s: string): (r: string)
    ensures r <= s && (forall i :: 0 <= i < |r| ==> IsDigit(r[i])) && (|r| < |s| ==> !IsDigit(s[|r|]))
    ensures s != "" && IsDigit(s[0]) ==> r != ""
  {
    if s != "" && IsDigit(s[0]) then [s[0]] + TakeDigits(s[1..]) else ""
  }

  function ScanField(s: string): (r: (Field, string))
    ensures |r.1| <= |s|
  {
    if s != "" && IsDigit(s[0]) then (Digits(TakeDigits(s)), s[|TakeDigits(s)|..])
    else if s != "" && s[0] == '*' then (Star, s[1..])
    else (Absent, s)
  }

  function ScanPrecision(s: string): (r: (Option<Field>, string))
    ensures |r.1| <= |s|
  {
    if s != "" && s[0] == '.' then
      var (x, rest) := ScanField(s[1..]);
      (Some(x), rest)
    else (None, s)
  }

  function ScanLength(s: string): (r: (Length, string))
    ensures |r.1| <= |s|
  {
    if s == "" then (NoLength, s)
    else if s[0] == 'l' then (if |s| > 1 && s[1] == 'l' then (LL, s[2..]) else (L, s[1..]))
    else if s[0] == 'h' then (if |s| > 1 && s[1] == 'h' then (HH, s[2..]) else (H, s[1..]))
    else if s[0] == 't' then (T, s[1..])
    else if s[0] == 'j' then (J, s[1..])
    else if s[0] == 'z' then (Z, s[1..])
    else (NoLength, s)
  }

  /** What follows a percent sign; None at the end of the format and for floating-point directives. */
  function ScanDirective(s: string): (r: Option<(Directive, string)>)
    ensures r.Some? ==> |r.value.1| < |s|
  {
    var flags := TakeFlags(s);
    var (width, s1) := ScanField(s[|flags|..]);
    var (precision, s2) := ScanPrecision(s1);
    var (length, s3) := ScanLength(s2);
    if s3 == "" || IsFloat(s3[0]) then None
    else Some((Directive(flags, width, precision, length, s3[0]), s3[1..]))
  }

  function ScanItem(s: string): (r: Option<(Item, string)>)
    requires s != ""
    ensures r.Some? ==> |r.value.1| < |s|
  {
    if s[0] != '%' then Some((Ordinary(s[0]), s[1..]))
    else
      match ScanDirective(s[1..])
      case Some((d, rest)) => Some((Percent(d), rest))
      case None => None
  }

  /** The items of a format; None if it is not well formed. */
  function Parse(s: string): Option<seq<Item>>
    decreases |s|
  {
    if s == "" then Some([])
    else
      match ScanItem(s)
      case None => None
      case Some((item, rest)) =>
        match Parse(rest)
        case None => None
        case Some(items) => Some([item] + items)
  }

  /** Directives for floating-point numbers are not among the formats considered. */
  lemma NoFloats(c: char, rest: string)
    requires c == 'f' || c == 'F' || c == 'e' || c == 'E' || c == 'g' || c == 'G'
    ensures Parse(['%'] + ([c] + rest)) == None
  {
    var s := [c] + rest;
    assert (['%'] + s)[1..] == s;
    NoFloatDirective(s);
    NoItem(['%'] + s);
  }

  lemma NoFloatDirective(s: string)
    requires s != "" && IsFloat(s[0])
    ensures ScanDirective(s) == None
  {
    assert TakeFlags(s) == "" && s[0..] == s;
    assert ScanField(s) == (Absent, s) && ScanPrecision(s) == (None, s) && ScanLength(s) == (NoLength, s);
  }

  lemma NoItem(s: string)
    requires s != "" && s[0] == '%' && ScanDirective(s[1..]) == None
    ensures Parse(s) == None
  {
  }

  // ----- spelling

  function SpellField(x: Field): string {
    match x
    case Absent => ""
    case Digits(text) => text
    case Star => "*"
  }

  function SpellPrecision(x: Option<Field>): string {
    match x
    case None => ""
    case Some(f) => "." + SpellField(f)
  }

  function SpellLength(l: Length): string {
    match l
    case NoLength => ""
    case H => "h"
    case HH => "hh"
    case L => "l"
    case LL => "ll"
    case T => "t"
    case J => "j"
    case Z => "z"
  }

  /** Everything from the length on, from the precision on, from the width on. */
  function FromLength(d: Directive): (r: string)
    ensures r != ""
  {
    SpellLength(d.length) + [d.spec]
  }

  function FromPrecision(d: Directive): (r: string)
    ensures r != ""
  {
    SpellPrecision(d.precision) + FromLength(d)
  }

  function FromWidth(d: Directive): (r: string)
    ensures r != ""
  {
    SpellField(d.width) + FromPrecision(d)
  }

  function SpellItem(item: Item): string {
    match item
    case Ordinary(c) => [c]
    case Percent(d) => "%" + (d.flags + FromWidth(d))
  }

  function Spell(items: seq<Item>): string {
    if items == [] then "" else SpellItem(items[0]) + Spell(items[1..])
  }

  /** The field ends where the next character says so. */
  predicate Ends(x: Field, next: char) {
    match x
    case Absent => !IsDigit(next) && next != '*'
    case Digits(text) => text != "" && (forall i :: 0 <= i < |text| ==> IsDigit(text[i])) && !IsDigit(next)
    case Star => true
  }

  predicate LengthEnds(l: Length, next: char) {
    match l
    case NoLength => next !in "lhtjz"
    case H => next != 'h'
    case L => next != 'l'
    case _ => true
  }

  /** Directives whose spelling leaves no doubt where a part ends. */
  predicate Legal(d: Directive) {
    && (forall i :: 0 <= i < |d.flags| ==> IsFlag(d.flags[i])) && !IsFlag(FromWidth(d)[0])
    && Ends(d.width, FromPrecision(d)[0])
    && (if d.precision.Some? then Ends(d.precision.value, FromLength(d)[0]) else FromLength(d)[0] != '.')
    && LengthEnds(d.length, d.spec)
    && !IsFloat(d.spec)
  }

  predicate LegalItem(item: Item) {
    match item
    case Ordinary(c) => c != '%'
    case Percent(d) => Legal(d)
  }

  // ----- spelling, then scanning

  lemma {:induction false} FlagsTaken(flags: string, rest: string)
    requires forall i :: 0 <= i < |flags| ==> IsFlag(flags[i])
    requires rest != "" ==> !IsFlag(rest[0])
    ensures TakeFlags(flags + rest) == flags
  {
    if flags == "" {
      assert flags + rest == rest;
    } else {
      assert (flags + rest)[1..] == flags[1..] + rest;
      FlagsTaken(flags[1..], rest);
    }
  }

  lemma {:induction false} DigitsTaken(digits: string, rest: string)
    requires forall i :: 0 <= i < |digits| ==> IsDigit(digits[i])
    requires rest != "" ==> !IsDigit(rest[0])
    ensures TakeDigits(digits + rest) == digits
  {
    if digits == "" {
      assert digits + rest == rest;
    } else {
      assert (digits + rest)[1..] == digits[1..] + rest;
      DigitsTaken(digits[1..], rest);
    }
  }

  lemma FieldScanned(x: Field, rest: string)
    requires rest != "" && Ends(x, rest[0])
    ensures ScanField(SpellField(x) + rest) == (x, rest)
  {
    var s := SpellField(x) + rest;
    match x
    case Absent =>
      assert s == rest;
    case Digits(text) =>
      DigitsTaken(text, rest);
      assert s[|text|..] == rest;
    case Star =>
      assert s[1..] == rest;
  }

  lemma PrecisionScanned(x: Option<Field>, rest: string)
    requires rest != "" && if x.Some? then Ends(x.value, rest[0]) else rest[0] != '.'
    ensures ScanPrecision(SpellPrecision(x) + rest) == (x, rest)
  {
    var s := SpellPrecision(x) + rest;
    match x
    case None =>
      assert s == rest;
    case Some(f) =>
      assert s[1..] == SpellField(f) + rest;
      FieldScanned(f, rest);
  }

  lemma LengthScanned(l: Length, rest: string)
    requires rest != "" && LengthEnds(l, rest[0])
    ensures ScanLength(SpellLength(l) + rest) == (l, rest)
  {
    var s := SpellLength(l) + rest;
    assert s[|SpellLength(l)|..] == rest;
    if l == NoLength {
      assert s == rest;
    }
  }

  /** The parts of a directive, joined from either end. */
  lemma Joined(flags: string, width: string, precision: string, length: string, spec: char, rest: string)
    ensures var tail := [spec] + rest;
            && length + tail == (length + [spec]) + rest
            && precision + (length + tail) == (precision + (length + [spec])) + rest
            && width + (precision + (length + tail)) == (width + (precision + (length + [spec]))) + rest
            && flags + (width + (precision + (length + tail)))
               == flags + (width + (precision + (length + [spec]))) + rest
  {
    JoinedThree(length, [spec], rest);
    JoinedThree(precision, length + [spec], rest);
    JoinedThree(width, precision + (length + [spec]), rest);
    JoinedThree(flags, width + (precision + (length + [spec])), rest);
  }

  lemma JoinedThree(a: string, b: string, c: string)
    ensures a + (b + c) == (a + b) + c
    ensures (a + c)[|a|..] == c
    ensures b != "" ==> (b + c)[0] == b[0]
  {
  }

  lemma DirectiveScanned(d: Directive, rest: string)
    requires Legal(d)
    ensures ScanDirective(d.flags + FromWidth(d) + rest) == Some((d, rest))
  {
    var tail := [d.spec] + rest;
    var s3 := SpellLength(d.length) + tail;
    var s2 := SpellPrecision(d.precision) + s3;
    var s1 := SpellField(d.width) + s2;
    Joined(d.flags, SpellField(d.width), SpellPrecision(d.precision), SpellLength(d.length), d.spec, rest);
    JoinedThree(d.flags, FromWidth(d), s1);
    JoinedThree("", FromWidth(d), rest);
    JoinedThree("", FromPrecision(d), rest);
    JoinedThree("", FromLength(d), rest);
    JoinedThree([d.spec], "", rest);
    FlagsTaken(d.flags, s1);
    FieldScanned(d.width, s2);
    PrecisionScanned(d.precision, s3);
    LengthScanned(d.length, tail);
  }

  lemma ItemScanned(item: Item, rest: string)
    requires LegalItem(item)
    ensures ScanItem(SpellItem(item) + rest) == Some((item, rest))
  {
    var s := SpellItem(item) + rest;
    match item
    case Ordinary(c) =>
      assert s[1..] == rest;
    case Percent(d) =>
      DirectiveScanned(d, rest);
      JoinedThree("%", d.flags + FromWidth(d), rest);
      JoinedThree("%", "", d.flags + FromWidth(d) + rest);
  }

  /** Scanning undoes spelling. */
  lemma {:induction false} ScanSpelled(items: seq<Item>)
    requires forall i :: 0 <= i < |items| ==> LegalItem(items[i])
    ensures Parse(Spell(items)) == Some(items)
  {
    if items == [] {
      assert Spell(items) == "";
    } else {
      ScanSpelled(items[1..]);
      ItemScanned(items[0], Spell(items[1..]));
      ParseOne(Spell(items), items[0], Spell(items[1..]), items[1..]);
      assert items == [items[0]] + items[1..];
    }
  }

  lemma ParseOne(s: string, item: Item, rest: string, items: seq<Item>)
    requires s != "" && ScanItem(s) == Some((item, rest)) && Parse(rest) == Some(items)
    ensures Parse(s) == Some([item] + items)
  {
  }

  // ----- scanning, then spelling

  lemma FieldSpelled(s: string)
    ensures var (x, rest) := ScanField(s); s == SpellField(x) + rest && (rest != "" ==> Ends(x, rest[0]))
  {
    if s != "" && IsDigit(s[0]) {
      assert s == TakeDigits(s) + s[|TakeDigits(s)|..];
    } else if s != "" && s[0] == '*' {
      assert s == "*" + s[1..];
    }
  }

  lemma PrecisionSpelled(s: string)
    ensures var (x, rest) := ScanPrecision(s);
            s == SpellPrecision(x) + rest
            && (rest != "" ==> if x.Some? then Ends(x.value, rest[0]) else rest[0] != '.')
  {
    if s != "" && s[0] == '.' {
      FieldSpelled(s[1..]);
      DotSpelled(s, ScanField(s[1..]).0, ScanField(s[1..]).1);
    }
  }

  lemma DotSpelled(s: string, x: Field, rest: string)
    requires s != "" && s[0] == '.' && s[1..] == SpellField(x) + rest
    ensures s == SpellPrecision(Some(x)) + rest
  {
    assert s == "." + s[1..];
  }

  lemma LengthSpelled(s: string)
    ensures var (l, rest) := ScanLength(s); s == SpellLength(l) + rest && (rest != "" ==> LengthEnds(l, rest[0]))
  {
  }

  lemma DirectiveSpelled(s: string)
    requires ScanDirective(s).Some?
    ensures var (d, rest) := ScanDirective(s).value; Legal(d) && s == d.flags + FromWidth(d) + rest
  {
    var flags := TakeFlags(s);
    var s0 := s[|flags|..];
    var (width, s1) := ScanField(s0);
    var (precision, s2) := ScanPrecision(s1);
    var (length, s3) := ScanLength(s2);
    var (d, rest) := ScanDirective(s).value;
    FieldSpelled(s0);
    PrecisionSpelled(s1);
    LengthSpelled(s2);
    PartsSpelled(s, s0, s1, s2, s3, d, rest);
  }

  lemma PartsSpelled(s: string, s0: string, s1: string, s2: string, s3: string, d: Directive, rest: string)
    requires s3 != "" && d.spec == s3[0] && rest == s3[1..]
    requires s2 == SpellLength(d.length) + s3 && LengthEnds(d.length, s3[0])
    requires s1 == SpellPrecision(d.precision) + s2
    requires if d.precision.Some? then Ends(d.precision.value, s2[0]) else s2[0] != '.'
    requires s0 == SpellField(d.width) + s1 && Ends(d.width, s1[0])
    requires d.flags <= s && s0 == s[|d.flags|..] && !IsFlag(s0[0]) && !IsFloat(d.spec)
    requires forall i :: 0 <= i < |d.flags| ==> IsFlag(d.flags[i])
    ensures Legal(d) && s == d.flags + FromWidth(d) + rest
  {
    assert s3 == [d.spec] + rest;
    assert s == d.flags + s0;
    Joined(d.flags, SpellField(d.width), SpellPrecision(d.precision), SpellLength(d.length), d.spec, rest);
    JoinedThree("", FromWidth(d), rest);
    JoinedThree("", FromPrecision(d), rest);
    JoinedThree("", FromLength(d), rest);
  }

  lemma ItemSpelled(s: string)
    requires s != "" && ScanItem(s).Some?
    ensures var (item, rest) := ScanItem(s).value; LegalItem(item) && s == SpellItem(item) + rest
  {
    assert s == [s[0]] + s[1..];
    if s[0] == '%' {
      var (d, rest) := ScanDirective(s[1..]).value;
      DirectiveSpelled(s[1..]);
      PercentSpelled(s, d, rest);
    }
  }

  lemma PercentSpelled(s: string, d: Directive, rest: string)
    requires s == "%" + (d.flags + FromWidth(d) + rest)
    ensures s == SpellItem(Percent(d)) + rest
  {
    JoinedThree("%", d.flags + FromWidth(d), rest);
  }

  /** Spelling undoes scanning: exactly the spellings of legal items are well formed. */
  lemma {:induction false} SpellScanned(s: string)
    requires Parse(s).Some?
    ensures Spell(Parse(s).value) == s
    ensures forall i :: 0 <= i < |Parse(s).value| ==> LegalItem(Parse(s).value[i])
    decreases |s|
  {
    if s == "" {
      assert Parse(s).value == [];
    } else {
      var (item, rest) := ScanItem(s).value;
      ItemSpelled(s);
      SpellScanned(rest);
      assert ([item] + Parse(rest).value)[1..] == Parse(rest).value;
    }
  }

  // ----- what a directive asks for

  /** Arguments with their promoted C types. */
  datatype Arg =
    | Int(n: i32)
    | UInt(u: u32)
    | Long(l: i64)
    | ULong(ul: u64)
    | LongLong(ll: i64)
    | ULongLong(ull: u64)
    | Str(s: string)
    | Pointer(p: u64)

  /** `long`, `size_t`, `ptrdiff_t` and pointers have 64 bits if `wide`, otherwise 32. */
  predicate ArgFits(a: Arg, wide: bool) {
    match a
    case Long(l) => wide || -TWO31 <= l < TWO31
    case ULong(ul) => wide || ul < TWO32
    case Pointer(p) => wide || p < TWO32
    case Str(s) => forall i :: 0 <= i < |s| ==> s[i] != 0 as char
    case _ => true
  }

  /** What the output functions are called with. */
  datatype Piece =
    | Literal(c: char)
    | Number(magnitude: u64, negative: bool, base: nat, prec: nat, width: nat, flags: Flags)
    | Text(s: string, prec: nat, width: nat, flags: Flags)
    | Character(c: char, width: nat, flags: Flags)

  /** `_atoi`, in 32 bits. */
  function Atoi(digits: string): (n: u32) {
    if digits == "" then 0
    else
      var c := digits[|digits| - 1];
      (Atoi(digits[..|digits| - 1]) * 10 + if IsDigit(c) then (c - '0') as nat else 0) % TWO32
  }

  /** The width and whether it asks for left alignment; the most negative argument has no magnitude. */
  function WidthOf(x: Field, args: seq<Arg>): Option<(u32, bool, seq<Arg>)> {
    match x
    case Absent => Some((0, false, args))
    case Digits(text) => Some((Atoi(text), false, args))
    case Star =>
      if args == [] || !args[0].Int? || args[0].n == -TWO31 then None
      else if args[0].n < 0 then Some((0 - args[0].n, true, args[1..]))
      else Some((args[0].n, false, args[1..]))
  }

  function PrecisionOf(x: Option<Field>, args: seq<Arg>): Option<(u32, seq<Arg>)> {
    match x
    case None => Some((0, args))
    case Some(Absent) => Some((0, args))
    case Some(Digits(text)) => Some((Atoi(text), args))
    case Some(Star) =>
      if args == [] || !args[0].Int? then None
      else Some((if args[0].n > 0 then args[0].n else 0, args[1..]))
  }

  datatype Size = CharSize | ShortSize | IntSize | LongSize | LongLongSize

  function SizeOf(l: Length, wide: bool): Size {
    match l
    case NoLength => IntSize
    case H => ShortSize
    case HH => CharSize
    case L => LongSize
    case LL => LongLongSize
    case T => LongSize
    case Z => LongSize
    case J => if wide then LongSize else LongLongSize
  }

  /** `(char)n` and `(short int)n`, both signed. */
  function SignExtend(n: int, modulus: nat): int
    requires modulus > 0
  {
    (n + modulus / 2) % modulus - modulus / 2
  }

  /** The value of a signed conversion. */
  function SignedArg(size: Size, a: Arg): Option<i64> {
    match (size, a)
    case (CharSize, Int(n)) => Some(SignExtend(n, 0x100))
    case (ShortSize, Int(n)) => Some(SignExtend(n, 0x1_0000))
    case (IntSize, Int(n)) => Some(n)
    case (LongSize, Long(l)) => Some(l)
    case (LongLongSize, LongLong(ll)) => Some(ll)
    case _ => None
  }

  /** The value that has no magnitude in the type it is negated in. */
  function MostNegative(size: Size, wide: bool): i64 {
    if size == LongLongSize || (size == LongSize && wide) then -TWO63 else -TWO31
  }

  function UnsignedArg(size: Size, a: Arg): Option<u64> {
    match (size, a)
    case (CharSize, UInt(u)) => Some(u % 0x100)
    case (ShortSize, UInt(u)) => Some(u % 0x1_0000)
    case (IntSize, UInt(u)) => Some(u)
    case (LongSize, ULong(ul)) => Some(ul)
    case (LongLongSize, ULongLong(ull)) => Some(ull)
    case _ => None
  }

  function FlagsOf(text: string, left: bool, precision: bool): Flags {
    Flags('0' in text, '-' in text || left, '+' in text, ' ' in text, '#' in text, false, precision)
  }

  /** A precision switches zero padding off. */
  function NumberFlags(f: Flags): Flags { if f.precision then f.(zeroPad := false) else f }

  function SignedFlags(f: Flags): Flags { NumberFlags(f).(hash := false) }

  function UnsignedFlags(f: Flags, spec: char): Flags {
    var g := NumberFlags(f).(plus := false, space := false, upper := spec == 'X');
    if spec == 'u' then g.(hash := false) else g
  }

  function BaseOf(spec: char): (base: nat)
    ensures base in {2, 8, 10, 16}
  {
    if spec == 'x' || spec == 'X' then 16 else if spec == 'o' then 8 else if spec == 'b' then 2 else 10
  }

  function Magnitude(value: i64): u64
    requires value > -TWO63
  {
    if value > 0 then value else 0 - value
  }

  /** One specifier with its resolved width, precision and flags. */
  function Specified(spec: char, size: Size, width: nat, prec: nat, f: Flags, args: seq<Arg>, wide: bool)
    : Option<(Piece, seq<Arg>)>
  {
    if spec in "di" then
      if args == [] then None
      else
        match SignedArg(size, args[0])
        case None => None
        case Some(value) =>
          if value <= MostNegative(size, wide) then None
          else Some((Number(Magnitude(value), value < 0, 10, prec, width, SignedFlags(f)), args[1..]))
    else if spec in "uxXob" then
      if args == [] then None
      else
        match UnsignedArg(size, args[0])
        case None => None
        case Some(value) => Some((Number(value, false, BaseOf(spec), prec, width, UnsignedFlags(f, spec)), args[1..]))
    else if spec == 'c' then
      if args == [] || !args[0].Int? then None
      else Some((Character((args[0].n % 0x100) as char, width, f), args[1..]))
    else if spec == 's' then
      if args == [] || !args[0].Str? then None
      else Some((Text(args[0].s, prec, width, f), args[1..]))
    else if spec == 'p' then
      if args == [] || !args[0].Pointer? then None
      else
        Some((Number(args[0].p, false, 16, prec, if wide then 16 else 8, f.(zeroPad := true, upper := true)),
            args[1..]))
    else Some((Literal(spec), args))
  }

  /** A directive takes width, precision and value from the arguments, in this order. */
  function Convert(d: Directive, args: seq<Arg>, wide: bool): Option<(Piece, seq<Arg>)> {
    match WidthOf(d.width, args)
    case None => None
    case Some((width, left, args1)) =>
      match PrecisionOf(d.precision, args1)
      case None => None
      case Some((prec, args2)) =>
        Specified(d.spec, SizeOf(d.length, wide), width, prec, FlagsOf(d.flags, left, d.precision.Some?), args2, wide)
  }

  function Consume(item: Item, args: seq<Arg>, wide: bool): Option<(Piece, seq<Arg>)> {
    match item
    case Ordinary(c) => Some((Literal(c), args))
    case Percent(d) => Convert(d, args, wide)
  }

  // ----- what is written

  /** The length of the string is taken as an `unsigned int`. */
  function Padding(s: string, width: nat, left: bool): string {
    var n := width - |s| % TWO32;
    if left then s + Repeat(' ', n) else Repeat(' ', n) + s
  }

  function Cut(s: string, prec: nat, flags: Flags): string {
    if flags.precision && prec < |s| then s[..prec] else s
  }

  function PieceText(p: Piece): string {
    match p
    case Literal(c) => [c]
    case Number(v, negative, base, prec, width, flags) =>
      if 2 <= base <= 16 then Rendered(v, negative, base, prec, width, flags) else ""
    case Text(s, prec, width, flags) => Padding(Cut(s, prec, flags), width, flags.left)
    case Character(c, width, flags) => Padding([c], width, flags.left)
  }

  /** The text of a format; None where the behaviour is undefined. */
  function AllText(items: seq<Item>, args: seq<Arg>, wide: bool): Option<string> {
    if items == [] then Some("")
    else
      match Consume(items[0], args, wide)
      case None => None
      case Some((p, rest)) =>
        match AllText(items[1..], rest, wide)
        case None => None
        case Some(t) => Some(PieceText(p) + t)
  }
}
