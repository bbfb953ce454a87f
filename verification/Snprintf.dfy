/** `snprintf_`: the loop over the format string, its arguments, and the buffer it leaves. */
module Snprintf {
  import opened Bytes
  import opened LittleEndian
  import opened TinyPrintf
  import opened PrintfText
  import opened FormatScan
  import opened PrintfStandard
  import opened DirectiveStandard

  // ----- scanning a directive

  ghost predicate FlagsRead(format: string, i: nat, j: nat, flags: Flags) {
    && i <= j <= |format| && j <= i + |TakeFlags(format[i..])|
    && flags == FlagsOf(TakeFlags(format[i..])[..j - i], false, false)
  }

  lemma FlagStep(format: string, i: nat, j: nat, flags: Flags)
    requires FlagsRead(format, i, j, flags) && j < |format| && IsFlag(format[j])
    ensures FlagsRead(format, i, j + 1, WithFlag(flags, format[j]))
  {
    var taken, k := TakeFlags(format[i..]), j - i;
    assert format[i..][k] == format[j];
    assert k < |taken| && taken[k] == format[j];
    FlagAdded(taken, k);
    assert j + 1 - i == k + 1;
  }

  lemma FlagsDone(format: string, i: nat, j: nat, flags: Flags)
    requires FlagsRead(format, i, j, flags) && (j < |format| ==> !IsFlag(format[j]))
    ensures j == i + |TakeFlags(format[i..])| && flags == FlagsOf(TakeFlags(format[i..]), false, false)
  {
    var taken := TakeFlags(format[i..]);
    if j < |format| { assert format[i..][j - i] == format[j]; }
    assert j == i + |taken|;
    assert taken[..|taken|] == taken;
  }

  method ReadFlags(format: string, i: nat) returns (flags: Flags, j: nat)
    requires i <= |format|
    ensures j == i + |TakeFlags(format[i..])| <= |format|
    ensures flags == FlagsOf(TakeFlags(format[i..]), false, false)
  {
    flags := Flags(false, false, false, false, false, false, false);
    j := i;
    while j < |format| && IsFlag(format[j])
      invariant FlagsRead(format, i, j, flags)
    {
      FlagStep(format, i, j, flags);
      flags := WithFlag(flags, format[j]);
      j := j + 1;
    }
    FlagsDone(format, i, j, flags);
  }

  /** The switch over the flag characters. */
  function WithFlag(f: Flags, c: char): Flags
    requires IsFlag(c)
  {
    match c
    case '0' => f.(zeroPad := true)
    case '-' => f.(left := true)
    case '+' => f.(plus := true)
    case ' ' => f.(space := true)
    case _ => f.(hash := true)
  }

  lemma FlagAdded(taken: string, k: nat)
    requires k < |taken| && IsFlag(taken[k])
    ensures FlagsOf(taken[..k + 1], false, false) == WithFlag(FlagsOf(taken[..k], false, false), taken[k])
  {
    assert taken[..k + 1] == taken[..k] + [taken[k]];
    OneMore(taken[..k], taken[k]);
  }

  lemma OneMore(text: string, c: char)
    ensures forall d :: d in text + [c] <==> d in text || d == c
  {
  }

  /** The digits from `i` to `j` are read. */
  ghost predicate NumberRead(format: string, i: nat, j: nat, n: nat) {
    && i <= j <= |format| && j <= i + |TakeDigits(format[i..])|
    && n == Atoi(TakeDigits(format[i..])[..j - i])
  }

  lemma NumberStep(format: string, i: nat, j: nat, n: nat)
    requires NumberRead(format, i, j, n) && j < |format| && IsDigit(format[j])
    ensures NumberRead(format, i, j + 1, (n * 10 + (format[j] - '0') as nat) % TWO32)
  {
    var taken, k := TakeDigits(format[i..]), j - i;
    assert format[i..][k] == format[j];
    assert k < |taken| && taken[k] == format[j];
    AtoiNext(taken, k);
    assert j + 1 - i == k + 1;
  }

  lemma NumberDone(format: string, i: nat, j: nat, n: nat)
    requires NumberRead(format, i, j, n) && (j < |format| ==> !IsDigit(format[j]))
    ensures j == i + |TakeDigits(format[i..])| && n == Atoi(TakeDigits(format[i..]))
  {
    var taken := TakeDigits(format[i..]);
    if j < |format| { assert format[i..][j - i] == format[j]; }
    assert j == i + |taken|;
    assert taken[..|taken|] == taken;
  }

  lemma AtoiNext(taken: string, k: nat)
    requires k < |taken| && IsDigit(taken[k])
    ensures Atoi(taken[..k + 1]) == (Atoi(taken[..k]) * 10 + (taken[k] - '0') as nat) % TWO32
  {
    assert taken[..k + 1][..k] == taken[..k];
  }

  /** `_atoi` */
  method ReadNumber(format: string, i: nat) returns (n: u32, j: nat)
    requires i <= |format|
    ensures j == i + |TakeDigits(format[i..])| <= |format| && n == Atoi(TakeDigits(format[i..]))
  {
    n, j := 0, i;
    while j < |format| && IsDigit(format[j])
      invariant NumberRead(format, i, j, n)
    {
      NumberStep(format, i, j, n);
      n := (n * 10 + (format[j] - '0') as nat) % TWO32;
      j := j + 1;
    }
    NumberDone(format, i, j, n);
  }

  method ReadWidth(format: string, i: nat, args: seq<Arg>) returns (width: u32, left: bool, rest: seq<Arg>, j: nat)
    requires i <= |format| && WidthOf(ScanField(format[i..]).0, args).Some?
    ensures i <= j <= |format| && format[j..] == ScanField(format[i..]).1
    ensures Some((width, left, rest)) == WidthOf(ScanField(format[i..]).0, args)
  {
    width, left, rest, j := 0, false, args, i;
    if j < |format| && IsDigit(format[j]) {
      width, j := ReadNumber(format, j);
      assert format[i..][j - i..] == format[j..];
    } else if j < |format| && format[j] == '*' {
      var w := args[0].n;
      if w < 0 {
        left := true;
        width := 0 - w;
      } else {
        width := w;
      }
      rest := args[1..];
      j := j + 1;
      assert format[i..][1..] == format[j..];
    }
  }

  method ReadPrecision(format: string, i: nat, args: seq<Arg>)
    returns (prec: u32, isGiven: bool, rest: seq<Arg>, j: nat)
    requires i <= |format| && PrecisionOf(ScanPrecision(format[i..]).0, args).Some?
    ensures i <= j <= |format| && format[j..] == ScanPrecision(format[i..]).1
    ensures Some((prec, rest)) == PrecisionOf(ScanPrecision(format[i..]).0, args)
    ensures isGiven <==> ScanPrecision(format[i..]).0.Some?
  {
    prec, isGiven, rest, j := 0, false, args, i;
    if j < |format| && format[j] == '.' {
      isGiven := true;
      j := j + 1;
      assert format[i..][1..] == format[j..];
      if j < |format| && IsDigit(format[j]) {
        ghost var k := j;
        prec, j := ReadNumber(format, j);
        assert format[k..][j - k..] == format[j..];
      } else if j < |format| && format[j] == '*' {
        prec := if args[0].n > 0 then args[0].n else 0;
        rest := args[1..];
        assert format[j..][1..] == format[j + 1..];
        j := j + 1;
      }
    }
  }

  method ReadLength(format: string, i: nat, wide: bool) returns (size: Size, j: nat)
    requires i <= |format|
    ensures i <= j <= |format| && format[j..] == ScanLength(format[i..]).1
    ensures size == SizeOf(ScanLength(format[i..]).0, wide)
  {
    size, j := IntSize, i;
    if j < |format| {
      assert format[i..][1..] == format[i + 1..];
      match format[j] {
        case 'l' =>
          size, j := LongSize, j + 1;
          if j < |format| && format[j] == 'l' {
            assert format[i..][2..] == format[i + 2..];
            size, j := LongLongSize, j + 1;
          }
        case 'h' =>
          size, j := ShortSize, j + 1;
          if j < |format| && format[j] == 'h' {
            assert format[i..][2..] == format[i + 2..];
            size, j := CharSize, j + 1;
          }
        case 't' =>
          size, j := LongSize, j + 1;
        case 'j' =>
          size, j := if wide then LongSize else LongLongSize, j + 1;
        case 'z' =>
          size, j := LongSize, j + 1;
        case _ =>
      }
    }
  }

  // ----- writing a directive

  method WritePadded(sink: Sink, idx: nat, s: string, width: u32, left: bool) returns (idx': nat)
    requires sink.Next(idx)
    modifies sink, sink.buffer
    ensures sink.Next(idx') && sink.out == old(sink.out) + Padding(s, width, left)
  {
    var n := width - |s| % TWO32;
    idx' := idx;
    if !left {
      idx' := sink.Spaces(n, idx');
    }
    idx' := WriteString(sink, idx', s);
    if left {
      idx' := sink.Spaces(n, idx');
    }
    Associate(old(sink.out), if left then s else Repeat(' ', n), if left then Repeat(' ', n) else s);
  }

  method WriteString(sink: Sink, idx: nat, s: string) returns (idx': nat)
    requires sink.Next(idx)
    modifies sink, sink.buffer
    ensures sink.Next(idx') && sink.out == old(sink.out) + s
  {
    idx' := idx;
    for i := 0 to |s|
      invariant sink.Next(idx') && sink.out == old(sink.out) + s[..i]
    {
      idx' := sink.Out(s[i], idx');
      assert s[..i + 1] == s[..i] + [s[i]];
    }
    assert s[..|s|] == s;
  }

  /** The switch over the specifier. */
  method WriteSpecified(sink: Sink, idx: nat, spec: char, size: Size, width: u32, prec: u32, flags: Flags,
                        args: seq<Arg>, wide: bool)
    returns (idx': nat, rest: seq<Arg>)
    requires sink.Next(idx)
    requires Specified(spec, size, width, prec, flags, args, wide).Some?
    modifies sink, sink.buffer
    ensures sink.Next(idx')
    ensures var (p, r) := Specified(spec, size, width, prec, flags, args, wide).value;
            rest == r && sink.out == old(sink.out) + PieceText(p)
  {
    rest := args;
    if spec in "di" {
      var value := SignedArg(size, args[0]).value;
      rest := args[1..];
      idx' := Ntoa(sink, idx, Magnitude(value), value < 0, 10, prec, width, SignedFlags(flags));
    } else if spec in "uxXob" {
      var value := UnsignedArg(size, args[0]).value;
      rest := args[1..];
      idx' := Ntoa(sink, idx, value, false, BaseOf(spec), prec, width, UnsignedFlags(flags, spec));
    } else if spec == 'c' {
      rest := args[1..];
      idx' := WritePadded(sink, idx, [(args[0].n % 0x100) as char], width, flags.left);
    } else if spec == 's' {
      rest := args[1..];
      idx' := WritePadded(sink, idx, Cut(args[0].s, prec, flags), width, flags.left);
    } else if spec == 'p' {
      rest := args[1..];
      idx' := Ntoa(sink, idx, args[0].p, false, 16, prec, if wide then 16 else 8,
                   flags.(zeroPad := true, upper := true));
    } else {
      idx' := sink.Out(spec, idx);
    }
  }

  /** What follows the flags, the width and the precision of a directive. */
  lemma DirectiveParts(s: string) returns (s0: string, s1: string, s2: string, s3: string)
    requires ScanDirective(s).Some?
    ensures var (d, tail) := ScanDirective(s).value;
            && d.flags == TakeFlags(s) && s0 == s[|d.flags|..] && ScanField(s0) == (d.width, s1)
            && ScanPrecision(s1) == (d.precision, s2) && ScanLength(s2) == (d.length, s3)
            && s3 != "" && s3[0] == d.spec && s3[1..] == tail
  {
    s0 := s[|TakeFlags(s)|..];
    s1 := ScanField(s0).1;
    s2 := ScanPrecision(s1).1;
    s3 := ScanLength(s2).1;
  }

  /** Width, precision and length, from behind the flags. */
  method ReadFields(format: string, i: nat, args: seq<Arg>, wide: bool, ghost d: Directive, ghost s1: string,
                    ghost s2: string, ghost s3: string)
    returns (left: bool, width: u32, isGiven: bool, prec: u32, size: Size, j: nat, ghost mid: seq<Arg>, rest: seq<Arg>)
    requires i <= |format| && ScanField(format[i..]) == (d.width, s1)
    requires ScanPrecision(s1) == (d.precision, s2) && ScanLength(s2) == (d.length, s3)
    requires WidthOf(d.width, args).Some? && PrecisionOf(d.precision, WidthOf(d.width, args).value.2).Some?
    ensures i <= j <= |format| && format[j..] == s3
    ensures isGiven == d.precision.Some? && size == SizeOf(d.length, wide)
    ensures WidthOf(d.width, args) == Some((width, left, mid)) && PrecisionOf(d.precision, mid) == Some((prec, rest))
  {
    width, left, rest, j := ReadWidth(format, i, args);
    mid := rest;
    prec, isGiven, rest, j := ReadPrecision(format, j, rest);
    size, j := ReadLength(format, j, wide);
  }

  lemma ConvertParts(d: Directive, args: seq<Arg>, wide: bool)
    requires Convert(d, args, wide).Some?
    ensures WidthOf(d.width, args).Some? && PrecisionOf(d.precision, WidthOf(d.width, args).value.2).Some?
    ensures var (width, left, mid) := WidthOf(d.width, args).value;
            var (prec, rest) := PrecisionOf(d.precision, mid).value;
            Convert(d, args, wide)
            == Specified(d.spec, SizeOf(d.length, wide), width, prec, FlagsOf(d.flags, left, d.precision.Some?), rest,
                         wide)
  {
  }

  /** A directive from behind its percent sign, up to its specifier at `j`. */
  method ReadDirective(format: string, i: nat, args: seq<Arg>, wide: bool)
    returns (flags: Flags, width: u32, prec: u32, size: Size, j: nat, rest: seq<Arg>)
    requires i <= |format| && ScanDirective(format[i..]).Some?
    requires Convert(ScanDirective(format[i..]).value.0, args, wide).Some?
    ensures i <= j < |format| && format[j + 1..] == ScanDirective(format[i..]).value.1
    ensures Specified(format[j], size, width, prec, flags, rest, wide)
         == Convert(ScanDirective(format[i..]).value.0, args, wide)
  {
    ghost var d := ScanDirective(format[i..]).value.0;
    ghost var s0, s1, s2, s3 := DirectiveParts(format[i..]);
    ConvertParts(d, args, wide);
    flags, j := ReadFlags(format, i);
    assert format[j..] == s0;
    var left, isGiven;
    ghost var mid;
    left, width, isGiven, prec, size, j, mid, rest := ReadFields(format, j, args, wide, d, s1, s2, s3);
    flags := flags.(left := flags.left || left, precision := isGiven);
    assert format[j..][1..] == format[j + 1..];
  }

  /** A directive, from behind its percent sign. */
  method WriteDirective(sink: Sink, idx: nat, format: string, i: nat, args: seq<Arg>, wide: bool)
    returns (idx': nat, j: nat, rest: seq<Arg>)
    requires sink.Next(idx)
    requires i <= |format| && ScanDirective(format[i..]).Some?
    requires Convert(ScanDirective(format[i..]).value.0, args, wide).Some?
    modifies sink, sink.buffer
    ensures sink.Next(idx')
    ensures i < j <= |format| && format[j..] == ScanDirective(format[i..]).value.1
    ensures var (p, r) := Convert(ScanDirective(format[i..]).value.0, args, wide).value;
            rest == r && sink.out == old(sink.out) + PieceText(p)
  {
    var flags, width, prec, size;
    flags, width, prec, size, j, rest := ReadDirective(format, i, args, wide);
    idx', rest := WriteSpecified(sink, idx, format[j], size, width, prec, flags, rest, wide);
    j := j + 1;
  }

  // ----- the loop

  /** A format and arguments whose behaviour is defined. */
  ghost predicate WellFormed(format: string, args: seq<Arg>, wide: bool) {
    && (forall i :: 0 <= i < |format| ==> format[i] != 0 as char)
    && (forall i :: 0 <= i < |args| ==> ArgFits(args[i], wide))
    && Parse(format).Some? && AllText(Parse(format).value, args, wide).Some?
  }

  ghost function TextOf(format: string, args: seq<Arg>, wide: bool): string
    requires WellFormed(format, args, wide)
  {
    AllText(Parse(format).value, args, wide).value
  }

  /** What is left of the format, with the arguments that are left, makes up the rest of the text. */
  ghost predicate Remaining(format: string, i: nat, args: seq<Arg>, wide: bool, out: string, total: string) {
    && i <= |format| && Parse(format[i..]).Some?
    && AllText(Parse(format[i..]).value, args, wide).Some?
    && total == out + AllText(Parse(format[i..]).value, args, wide).value
  }

  lemma NextItem(format: string, i: nat, args: seq<Arg>, wide: bool, out: string, total: string)
    requires Remaining(format, i, args, wide, out, total) && i < |format|
    ensures ScanItem(format[i..]).Some?
    ensures var (item, tail) := ScanItem(format[i..]).value;
            && Consume(item, args, wide).Some?
            && forall j :: i <= j <= |format| && format[j..] == tail ==>
                 var (p, rest) := Consume(item, args, wide).value;
                 Remaining(format, j, rest, wide, out + PieceText(p), total)
  {
    var (item, tail) := ScanItem(format[i..]).value;
    var items := Parse(format[i..]).value;
    assert items == [item] + Parse(tail).value && items[1..] == Parse(tail).value;
    var (p, rest) := Consume(item, args, wide).value;
    Associate(out, PieceText(p), AllText(items[1..], rest, wide).value);
  }

  /** `_vsnprintf` up to the termination. */
  method Vsnprintf(sink: Sink, format: string, args: seq<Arg>, wide: bool, ghost total: string) returns (idx: nat)
    requires sink.Next(0) && sink.out == "" && Remaining(format, 0, args, wide, "", total)
    modifies sink, sink.buffer
    ensures sink.Next(idx) && sink.out == total
  {
    var i: nat, rest := 0, args;
    idx := 0;
    while i < |format|
      invariant sink.Next(idx) && Remaining(format, i, rest, wide, sink.out, total)
      decreases |format| - i
    {
      NextItem(format, i, rest, wide, sink.out, total);
      assert format[i..][1..] == format[i + 1..];
      if format[i] != '%' {
        idx := sink.Out(format[i], idx);
        i := i + 1;
      } else {
        idx, i, rest := WriteDirective(sink, idx, format, i + 1, rest, wide);
      }
    }
    assert format[i..] == "" && sink.out + "" == sink.out;
  }

  /** `(int)idx` */
  function CastInt(n: nat): i32 { (n + TWO31) % TWO32 - TWO31 }

  lemma CastKeeps(n: nat, wide: bool)
    ensures CastInt(Wrap(n, wide)) == CastInt(n)
    ensures n < TWO31 ==> CastInt(n) == n
  {
  }

  /** Where the terminating NUL goes. */
  function End(n: nat, count: nat): nat
    requires count >= 1
  {
    if n < count then n else count - 1
  }

  /** The first `count` characters of a buffer after `snprintf_`. */
  ghost predicate Terminated(buffer: seq<char>, before: seq<char>, count: nat, text: string, wide: bool)
    requires 1 <= count <= |buffer| == |before|
  {
    && buffer[End(Wrap(|text|, wide), count)] == 0 as char
    && forall i :: 0 <= i < count && i != End(Wrap(|text|, wide), count) ==>
         buffer[i] == LastAt(text, i, wide, before[i])
  }

  /** For a text shorter than `size_t` can count that is the prefix that fits, and a NUL. */
  lemma TerminatedShort(buffer: seq<char>, before: seq<char>, count: nat, text: string, wide: bool)
    requires 1 <= count <= |buffer| == |before| && Terminated(buffer, before, count, text, wide)
    requires |text| < if wide then TWO64 else TWO32
    ensures buffer[..End(|text|, count)] == text[..End(|text|, count)] && buffer[End(|text|, count)] == 0 as char
  {
    forall i | 0 <= i < End(|text|, count) ensures buffer[i] == text[i] {
      LastAtShort(text, i, wide, before[i]);
    }
  }

  /** After one more character than it can count, the buffer holds that character alone. */
  lemma TerminatedWrapped(buffer: seq<char>, before: seq<char>, count: nat, text: string, wide: bool)
    requires 2 <= count <= |buffer| == |before| && Terminated(buffer, before, count, text, wide)
    requires |text| == (if wide then TWO64 else TWO32) + 1
    ensures buffer[0] == text[|text| - 1] && buffer[1] == 0 as char
  {
  }

  method Terminate(sink: Sink, idx: nat)
    requires sink.Next(idx) && 1 <= sink.maxlen
    modifies sink.buffer
    ensures Terminated(sink.buffer[..], sink.before, sink.maxlen, sink.out, sink.wide)
    ensures sink.buffer[sink.maxlen..] == sink.before[sink.maxlen..]
  {
    sink.buffer[if idx < sink.maxlen then idx else sink.maxlen - 1] := 0 as char;
  }

  lemma AllRemains(format: string, args: seq<Arg>, wide: bool)
    requires WellFormed(format, args, wide)
    ensures Remaining(format, 0, args, wide, "", TextOf(format, args, wide))
  {
    assert format[0..] == format && "" + TextOf(format, args, wide) == TextOf(format, args, wide);
  }

  /**
   The full length is returned, as an `int`. The buffer holds what fits of the text and a NUL after it,
   as long as `size_t` can count the text; beyond that the text goes round and overwrites itself.
   */
  method Snprintf(buffer: array<char>, count: nat, format: string, args: seq<Arg>, wide: bool) returns (length: i32)
    requires 1 <= count <= buffer.Length && WellFormed(format, args, wide)
    modifies buffer
    ensures length == CastInt(|TextOf(format, args, wide)|)
    ensures |TextOf(format, args, wide)| < TWO31 ==> length == |TextOf(format, args, wide)|
    ensures Terminated(buffer[..], old(buffer[..]), count, TextOf(format, args, wide), wide)
    ensures var text := TextOf(format, args, wide);
            var n := End(|text|, count);
            |text| < (if wide then TWO64 else TWO32) ==> buffer[..n] == text[..n] && buffer[n] == 0 as char
    ensures buffer[count..] == old(buffer[count..])
  {
    ghost var text := TextOf(format, args, wide);
    AllRemains(format, args, wide);
    var idx := IntoBuffer(buffer, count, format, args, wide, text);
    CastKeeps(|text|, wide);
    length := CastInt(idx);
    if |text| < (if wide then TWO64 else TWO32) {
      TerminatedShort(buffer[..], old(buffer[..]), count, text, wide);
      assert buffer[..End(|text|, count)] == buffer[..][..End(|text|, count)];
    }
  }

  method IntoBuffer(buffer: array<char>, count: nat, format: string, args: seq<Arg>, wide: bool, ghost text: string)
    returns (idx: nat)
    requires 1 <= count <= buffer.Length && Remaining(format, 0, args, wide, "", text)
    modifies buffer
    ensures idx == Wrap(|text|, wide) && Terminated(buffer[..], old(buffer[..]), count, text, wide)
    ensures buffer[count..] == old(buffer[count..])
  {
    var sink := new Sink(buffer, count, wide);
    idx := Vsnprintf(sink, format, args, wide, text);
    Terminate(sink, idx);
  }

  // ----- reading back

  /** Precision and zero-padded width fit the digit buffer. */
  predicate Roomy(d: Directive, args: seq<Arg>, most: nat) {
    && OrZero(StandardPrecision(d.precision, After(d.width, args))) <= most
    && ('0' in d.flags && d.precision.None? ==> StandardWidth(d.width, args) <= BUFFER_SIZE)
  }

  lemma OneItemText(item: Item, args: seq<Arg>, wide: bool)
    requires Consume(item, args, wide).Some?
    ensures AllText([item], args, wide) == Some(PieceText(Consume(item, args, wide).value.0))
  {
    var text := PieceText(Consume(item, args, wide).value.0);
    assert [item][1..] == [] && text + "" == text;
  }

  lemma OneDirective(d: Directive, args: seq<Arg>, wide: bool)
    requires Legal(d) && Convert(d, args, wide).Some?
    ensures Parse("%" + (d.flags + FromWidth(d))) == Some([Percent(d)])
    ensures AllText([Percent(d)], args, wide) == Some(PieceText(Convert(d, args, wide).value.0))
  {
    OneSpelled(d);
    OneItemText(Percent(d), args, wide);
  }

  lemma OneSpelled(d: Directive)
    requires Legal(d)
    ensures Parse("%" + (d.flags + FromWidth(d))) == Some([Percent(d)])
  {
    ScanSpelled([Percent(d)]);
    assert [Percent(d)][1..] == [] && Spell([]) == "";
    assert Spell([Percent(d)]) == "%" + (d.flags + FromWidth(d));
  }

  /** Directly on width, precision and value. */
  lemma NumberReadsBack(v: u64, negative: bool, base: nat, prec: nat, width: nat, flags: Flags)
    requires base in {8, 10, 16} && (prec > 0 ==> flags.precision) && (flags.precision ==> !flags.zeroPad)
        && !flags.hash
    requires prec <= BUFFER_SIZE && (flags.zeroPad ==> width <= BUFFER_SIZE)
    requires Sign(negative, flags) != "" ==> prec < BUFFER_SIZE
    ensures Strtol(PieceText(Number(v, negative, base, prec, width, flags)), base) == if negative then 0 - v else v
  {
    DigitsFit(v, base, flags);
    ConversionReadsBack(v, negative, base, prec, width, flags);
  }

  /** The text of an integer directive reads back in its base. */
  lemma IntegerReadsBack(d: Directive, args: seq<Arg>, wide: bool)
    requires Legal(d) && IsInteger(d.spec) && (d.spec in "oxX" ==> '#' !in d.flags) && IsDefined(d, args, wide)
    requires Roomy(d, args, if d.spec in "di" then BUFFER_SIZE - 1 else BUFFER_SIZE)
    ensures Convert(d, args, wide).Some?
    ensures Strtol(PieceText(Convert(d, args, wide).value.0), StandardBase(d.spec))
         == StandardValue(d, args, wide).value
  {
    IntegerConverted(d, args, wide);
    RoomFor(d, args, wide);
    ValueReadsBack(Convert(d, args, wide).value.0, StandardValue(d, args, wide).value, StandardBase(d.spec),
                   OrZero(StandardPrecision(d.precision, After(d.width, args))), StandardWidth(d.width, args),
                   AskedFlags(d, args));
  }

  lemma RoomFor(d: Directive, args: seq<Arg>, wide: bool)
    requires IsInteger(d.spec) && IsDefined(d, args, wide)
    requires Roomy(d, args, if d.spec in "di" then BUFFER_SIZE - 1 else BUFFER_SIZE)
    ensures var prec, flags := OrZero(StandardPrecision(d.precision, After(d.width, args))), AskedFlags(d, args);
            && (prec > 0 ==> flags.precision) && (flags.precision ==> !flags.zeroPad)
            && prec <= BUFFER_SIZE && (flags.zeroPad ==> StandardWidth(d.width, args) <= BUFFER_SIZE)
            && StandardBase(d.spec) in {8, 10, 16} && (d.spec in "oxX" && '#' !in d.flags ==> !flags.hash)
            && (d.spec !in "oxX" ==> !flags.hash)
            && (Sign(StandardValue(d, args, wide).value < 0, flags) != "" ==> prec < BUFFER_SIZE)
  {
    PrecisionIs(d.precision, After(d.width, args));
    if d.spec in "uoxX" { UnsignedHasNoSign(d, args, wide); }
  }

  lemma ValueReadsBack(p: Piece, value: int, base: nat, prec: nat, width: nat, flags: Flags)
    requires 0 - TWO63 < value < TWO64 && base in {8, 10, 16} && !flags.hash
    requires p == Number(if value < 0 then 0 - value else value, value < 0, base, prec, width, flags)
    requires (prec > 0 ==> flags.precision) && (flags.precision ==> !flags.zeroPad)
    requires prec <= BUFFER_SIZE && (flags.zeroPad ==> width <= BUFFER_SIZE)
    requires Sign(value < 0, flags) != "" ==> prec < BUFFER_SIZE
    ensures Strtol(PieceText(p), base) == value
  {
    NumberReadsBack(if value < 0 then 0 - value else value, value < 0, base, prec, width, flags);
  }

  lemma UnsignedHasNoSign(d: Directive, args: seq<Arg>, wide: bool)
    requires d.spec in "uoxX" && StandardValue(d, args, wide).Some?
    ensures StandardValue(d, args, wide).value >= 0 && Sign(false, AskedFlags(d, args)) == ""
  {
  }

  /**
   `%d` and `%i` with any flags, width, precision and length: the text reads back as the value of the
   argument in its type.
   */
  lemma SignedReadsBack(d: Directive, args: seq<Arg>, wide: bool)
    requires Legal(d) && d.spec in "di" && IsDefined(d, args, wide) && Roomy(d, args, BUFFER_SIZE - 1)
    ensures var text := AllText([Percent(d)], args, wide);
            && text.Some? && Rest(d, args) != []
            && SignedValue(SpellLength(d.length), Rest(d, args)[0], wide) == Some(Strtol(text.value, 10))
  {
    IntegerReadsBack(d, args, wide);
    ValueOfSigned(d, args, wide);
    OneDirective(d, args, wide);
  }

  /** `%u`, `%o`, `%x` and `%X`, the last three without `#`, likewise. */
  lemma UnsignedReadsBack(d: Directive, args: seq<Arg>, wide: bool)
    requires Legal(d) && d.spec in "uoxX" && IsDefined(d, args, wide) && Roomy(d, args, BUFFER_SIZE)
    requires d.spec in "oxX" ==> '#' !in d.flags
    ensures var text := AllText([Percent(d)], args, wide);
            var base := if d.spec == 'u' then 10 else if d.spec == 'o' then 8 else 16;
            && text.Some? && Rest(d, args) != []
            && UnsignedValue(SpellLength(d.length), Rest(d, args)[0], wide) == Some(Strtol(text.value, base))
  {
    IntegerReadsBack(d, args, wide);
    ValueOfUnsigned(d, args, wide);
    OneDirective(d, args, wide);
  }

  /** `%p` without precision and `#`: hexadecimal, and as wide as a pointer. */
  lemma PointerReadsBack(d: Directive, args: seq<Arg>, wide: bool)
    requires Legal(d) && d.spec == 'p' && d.precision == None && '#' !in d.flags && WidthOf(d.width, args).Some?
    requires Rest(d, args) != [] && Rest(d, args)[0].Pointer?
    ensures var text := AllText([Percent(d)], args, wide);
            text.Some? && Strtol(text.value, 16) == Rest(d, args)[0].p
  {
    PointerConverted(d, args, wide);
    OneDirective(d, args, wide);
    PointerText(Rest(d, args)[0].p, if wide then 16 else 8, PointerFlags(d, args));
  }

  function PointerFlags(d: Directive, args: seq<Arg>): Flags {
    FlagsOf(d.flags, d.width.Star? && StarOf(args) < 0, false).(zeroPad := true, upper := true)
  }

  lemma PointerConverted(d: Directive, args: seq<Arg>, wide: bool)
    requires d.spec == 'p' && d.precision == None && '#' !in d.flags && WidthOf(d.width, args).Some?
    requires Rest(d, args) != [] && Rest(d, args)[0].Pointer?
    ensures Convert(d, args, wide).Some?
    ensures Convert(d, args, wide).value.0
         == Number(Rest(d, args)[0].p, false, 16, 0, if wide then 16 else 8, PointerFlags(d, args))
    ensures var flags := PointerFlags(d, args); !flags.hash && !flags.precision && flags.zeroPad
  {
    WidthIs(d.width, args);
    Resolved(d, args, wide);
  }

  lemma PointerText(p: u64, width: nat, flags: Flags)
    requires !flags.hash && !flags.precision && flags.zeroPad && width <= 16
    ensures Strtol(PieceText(Number(p, false, 16, 0, width, flags)), 16) == p
  {
    NumberReadsBack(p, false, 16, 0, width, flags);
  }

  lemma OneItemDefined(item: Item, args: seq<Arg>, wide: bool)
    ensures AllText([item], args, wide).Some? <==> Consume(item, args, wide).Some?
  {
    if Consume(item, args, wide).Some? {
      OneItemText(item, args, wide);
    }
  }

  /** A format of one directive. */
  lemma FormatOf(format: string, d: Directive, args: seq<Arg>, wide: bool)
    requires Legal(d) && format == "%" + (d.flags + FromWidth(d))
    requires forall i :: 0 <= i < |format| ==> format[i] != 0 as char
    requires forall i :: 0 <= i < |args| ==> ArgFits(args[i], wide)
    ensures WellFormed(format, args, wide) <==> Convert(d, args, wide).Some?
    ensures WellFormed(format, args, wide) ==> AllText([Percent(d)], args, wide) == Some(TextOf(format, args, wide))
  {
    OneSpelled(d);
    OneItemDefined(Percent(d), args, wide);
    ParsedFormat(format, [Percent(d)], args, wide);
  }

  lemma ParsedFormat(format: string, items: seq<Item>, args: seq<Arg>, wide: bool)
    requires Parse(format) == Some(items)
    requires forall i :: 0 <= i < |format| ==> format[i] != 0 as char
    requires forall i :: 0 <= i < |args| ==> ArgFits(args[i], wide)
    ensures WellFormed(format, args, wide) <==> AllText(items, args, wide).Some?
    ensures WellFormed(format, args, wide) ==> AllText(items, args, wide) == Some(TextOf(format, args, wide))
  {
  }

  lemma SignedFormat(format: string, d: Directive, args: seq<Arg>, wide: bool)
    requires Legal(d) && format == "%" + (d.flags + FromWidth(d)) && d.spec in "di"
    requires forall i :: 0 <= i < |format| ==> format[i] != 0 as char
    requires forall i :: 0 <= i < |args| ==> ArgFits(args[i], wide)
    requires IsDefined(d, args, wide) && Roomy(d, args, BUFFER_SIZE - 1)
    ensures WellFormed(format, args, wide) && Rest(d, args) != []
    ensures SignedValue(SpellLength(d.length), Rest(d, args)[0], wide) == Some(Strtol(TextOf(format, args, wide), 10))
  {
    IntegerReadsBack(d, args, wide);
    FormatOf(format, d, args, wide);
    SignedReadsBack(d, args, wide);
  }

  /** The format "%5d" reads back for every int but the most negative. */
  lemma WidthExample(n: i32)
    requires n > -TWO31
    ensures WellFormed("%5d", [Int(n)], false) && Strtol(TextOf("%5d", [Int(n)], false), 10) == n
  {
    var d := Directive("", Digits("5"), None, NoLength, 'd');
    FiveIsLegal(d);
    FiveConverts(d, n);
    SignedFormat("%5d", d, [Int(n)], false);
  }

  lemma FiveConverts(d: Directive, n: i32)
    requires d == Directive("", Digits("5"), None, NoLength, 'd') && n > -TWO31 && Atoi("5") == 5
    ensures IsDefined(d, [Int(n)], false) && Roomy(d, [Int(n)], BUFFER_SIZE - 1)
    ensures Rest(d, [Int(n)]) == [Int(n)] && SignedValue("", Int(n), false) == Some(n)
  {
  }

  lemma FiveIsLegal(d: Directive)
    requires d == Directive("", Digits("5"), None, NoLength, 'd')
    ensures Legal(d) && "%" + (d.flags + FromWidth(d)) == "%5d" && Atoi("5") == 5
  {
    assert FromLength(d) == "d" && FromPrecision(d) == "d" && FromWidth(d) == "5d";
    assert "%" + (d.flags + FromWidth(d)) == "%5d";
    assert "5"[..0] == "" && Atoi("5") == 5;
  }

  lemma CharConverts(d: Directive, n: i32)
    requires d == Directive("", Absent, None, HH, 'd')
    ensures IsDefined(d, [Int(n)], false) && Roomy(d, [Int(n)], BUFFER_SIZE - 1)
    ensures Rest(d, [Int(n)]) == [Int(n)]
    ensures SignedValue(SpellLength(d.length), Int(n), false)
         == Some(if n % 0x100 < 0x80 then n % 0x100 else n % 0x100 - 0x100)
  {
  }

  /** "%hhd" reads back as the low eight bits, for every int. */
  lemma CharExample(n: i32)
    ensures WellFormed("%hhd", [Int(n)], false)
    ensures Strtol(TextOf("%hhd", [Int(n)], false), 10) == if n % 0x100 < 0x80 then n % 0x100 else n % 0x100 - 0x100
  {
    var d := Directive("", Absent, None, HH, 'd');
    assert FromLength(d) == "hhd" && FromPrecision(d) == "hhd" && FromWidth(d) == "hhd";
    assert "%" + (d.flags + FromWidth(d)) == "%hhd";
    CharConverts(d, n);
    SignedFormat("%hhd", d, [Int(n)], false);
  }

  /** "%d" is defined for every int but the most negative. */
  lemma MostNegativeExample(n: i32)
    ensures WellFormed("%d", [Int(n)], false) <==> n != -TWO31
  {
    var d := Directive("", Absent, None, NoLength, 'd');
    assert FromLength(d) == "d" && FromPrecision(d) == "d" && FromWidth(d) == "d";
    assert "%" + (d.flags + FromWidth(d)) == "%d";
    FormatOf("%d", d, [Int(n)], false);
  }

  // ----- a text longer than a 32-bit `size_t` can count

  const STAR: Directive := Directive("", Star, None, NoLength, 'd')
  const WIDEST: i32 := TWO31 - 1

  lemma StarSpelled()
    ensures Legal(STAR) && SpellItem(Percent(STAR)) == "%*d"
  {
    assert FromLength(STAR) == "d" && FromPrecision(STAR) == "d" && FromWidth(STAR) == "*d";
  }

  lemma SpellOne(item: Item, rest: seq<Item>)
    ensures Spell([item] + rest) == SpellItem(item) + Spell(rest)
  {
    assert ([item] + rest)[1..] == rest;
  }

  /** The items of "XYZ". */
  lemma Tail() returns (items: seq<Item>)
    ensures Spell(items) == "XYZ" && forall i :: 0 <= i < |items| ==> items[i].Ordinary? && LegalItem(items[i])
  {
    items := [Ordinary('X')] + ([Ordinary('Y')] + ([Ordinary('Z')] + []));
    SpellOne(Ordinary('Z'), []);
    SpellOne(Ordinary('Y'), [Ordinary('Z')] + []);
    SpellOne(Ordinary('X'), [Ordinary('Y')] + ([Ordinary('Z')] + []));
  }

  lemma LongSpelled(format: string, tail: seq<Item>)
    requires format == "%*d%*dXYZ" && Spell(tail) == "XYZ"
    ensures Spell([Percent(STAR)] + ([Percent(STAR)] + tail)) == format
    ensures forall i :: 0 <= i < |format| ==> format[i] != 0 as char
  {
    StarSpelled();
    SpellOne(Percent(STAR), tail);
    SpellOne(Percent(STAR), [Percent(STAR)] + tail);
  }

  lemma LongItems(format: string, items: seq<Item>, tail: seq<Item>)
    requires items == [Percent(STAR)] + ([Percent(STAR)] + tail) && Spell(items) == format
    requires forall i :: 0 <= i < |tail| ==> LegalItem(tail[i])
    ensures Parse(format) == Some(items)
  {
    StarSpelled();
    AllLegal(items, tail);
    ScanSpelled(items);
  }

  lemma AllLegal(items: seq<Item>, tail: seq<Item>)
    requires items == [Percent(STAR)] + ([Percent(STAR)] + tail) && Legal(STAR)
    requires forall i :: 0 <= i < |tail| ==> LegalItem(tail[i])
    ensures forall i :: 0 <= i < |items| ==> LegalItem(items[i])
  {
    forall i | 0 <= i < |items| ensures LegalItem(items[i]) {
      if i >= 2 { assert items[i] == tail[i - 2]; }
    }
  }

  lemma WidestZero(args: seq<Arg>)
    ensures var (p, rest) := Convert(STAR, [Int(WIDEST), Int(0)] + args, false).value;
            Convert(STAR, [Int(WIDEST), Int(0)] + args, false).Some? && rest == args && |PieceText(p)| == WIDEST
  {
  }

  /** Ordinary characters are their own text. */
  lemma {:induction false} OrdinaryText(items: seq<Item>, wide: bool)
    requires forall i :: 0 <= i < |items| ==> items[i].Ordinary?
    ensures AllText(items, [], wide) == Some(Spell(items))
  {
    if items == [] {
    } else {
      OrdinaryText(items[1..], wide);
    }
  }

  lemma ConsumeOne(item: Item, rest: seq<Item>, args: seq<Arg>, wide: bool)
    requires Consume(item, args, wide).Some?
    requires AllText(rest, Consume(item, args, wide).value.1, wide).Some?
    ensures var (p, left) := Consume(item, args, wide).value;
            AllText([item] + rest, args, wide) == Some(PieceText(p) + AllText(rest, left, wide).value)
  {
    assert ([item] + rest)[1..] == rest;
  }

  lemma LongText(items: seq<Item>, tail: seq<Item>, args: seq<Arg>) returns (text: string)
    requires items == [Percent(STAR)] + ([Percent(STAR)] + tail) && Spell(tail) == "XYZ"
    requires forall i :: 0 <= i < |tail| ==> tail[i].Ordinary?
    requires args == [Int(WIDEST), Int(0)] + ([Int(WIDEST), Int(0)] + [])
    ensures AllText(items, args, false) == Some(text) && |text| == TWO32 + 1 && text[TWO32] == 'Z'
  {
    OrdinaryText(tail, false);
    WidestZero([]);
    WidestZero([Int(WIDEST), Int(0)] + []);
    ConsumeOne(Percent(STAR), tail, [Int(WIDEST), Int(0)] + [], false);
    ConsumeOne(Percent(STAR), [Percent(STAR)] + tail, args, false);
    text := AllText(items, args, false).value;
  }

  lemma LongFormat(format: string) returns (items: seq<Item>, tail: seq<Item>)
    requires format == "%*d%*dXYZ"
    ensures items == [Percent(STAR)] + ([Percent(STAR)] + tail) && Spell(tail) == "XYZ"
    ensures forall i :: 0 <= i < |tail| ==> tail[i].Ordinary?
    ensures Parse(format) == Some(items) && forall i :: 0 <= i < |format| ==> format[i] != 0 as char
  {
    tail := Tail();
    LongSpelled(format, tail);
    items := [Percent(STAR)] + ([Percent(STAR)] + tail);
    LongItems(format, items, tail);
  }

  lemma ArgumentsFit(args: seq<Arg>)
    requires args == [Int(WIDEST), Int(0)] + ([Int(WIDEST), Int(0)] + [])
    ensures forall i :: 0 <= i < |args| ==> ArgFits(args[i], false)
  {
  }

  lemma LongTextOf(format: string, args: seq<Arg>) returns (text: string)
    requires format == "%*d%*dXYZ" && args == [Int(WIDEST), Int(0)] + ([Int(WIDEST), Int(0)] + [])
    ensures WellFormed(format, args, false) && TextOf(format, args, false) == text
    ensures |text| == TWO32 + 1 && text[TWO32] == 'Z'
  {
    var items, tail := LongFormat(format);
    text := LongText(items, tail, args);
    ArgumentsFit(args);
    ParsedFormat(format, items, args, false);
  }

  /**
   Two widths of 2^31 - 1 and three letters: with 32-bit sizes the text goes round, and what is left at
   the start of the buffer is its last character and the NUL.
   */
  lemma WrapExample(format: string, args: seq<Arg>, buffer: seq<char>, before: seq<char>, count: nat)
    requires format == "%*d%*dXYZ" && args == [Int(WIDEST), Int(0)] + ([Int(WIDEST), Int(0)] + [])
    requires 2 <= count <= |buffer| == |before|
    ensures WellFormed(format, args, false)
    ensures Terminated(buffer, before, count, TextOf(format, args, false), false) ==>
              buffer[0] == 'Z' && buffer[1] == 0 as char
  {
    var text := LongTextOf(format, args);
    if Terminated(buffer, before, count, text, false) {
      TerminatedWrapped(buffer, before, count, text, false);
    }
  }
}
