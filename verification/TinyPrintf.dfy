/**
 The integer conversions of the tiny printf: digits are collected in a small buffer, least significant
 first, padded there, and written out in reverse. The reference is the text section 7.21.6.1 of
 ISO/IEC 9899:2011 asks for.
 */
module TinyPrintf {
  import opened Bytes
  import opened LittleEndian

  const BUFFER_SIZE: nat := 32

  datatype Flags =
    Flags(zeroPad: bool, left: bool, plus: bool, space: bool, hash: bool, upper: bool, precision: bool)

  // ----- digits

  function DigitChar(d: nat, upper: bool): char
    requires d < 16
  {
    if d < 10 then '0' + d as char else if upper then 'A' + (d - 10) as char else 'a' + (d - 10) as char
  }

  function DigitValue(c: char): Option<nat> {
    if '0' <= c <= '9' then Some((c - '0') as nat)
    else if 'a' <= c <= 'f' then Some((c - 'a') as nat + 10)
    else if 'A' <= c <= 'F' then Some((c - 'A') as nat + 10)
    else None
  }

  /** Digits, least significant first; none for zero. */
  function LowDigits(v: nat, base: nat, upper: bool): (r: string)
    requires 2 <= base <= 16
    ensures v > 0 <==> r != ""
  {
    if v == 0 then "" else [DigitChar(v % base, upper)] + LowDigits(v / base, base, upper)
  }

  /** As the conversion produces them: zero has a digit unless a precision is given. */
  function Collected(v: nat, base: nat, flags: Flags): string
    requires 2 <= base <= 16
  {
    if v > 0 then LowDigits(v, base, flags.upper) else if flags.precision then "" else "0"
  }

  /** The digits the buffer takes: all of them, except for large values in base 2. */
  function Kept(v: nat, base: nat, flags: Flags): (r: string)
    requires 2 <= base <= 16
    ensures |r| <= BUFFER_SIZE
  {
    var c := Collected(v, base, flags);
    if |c| <= BUFFER_SIZE then c else c[..BUFFER_SIZE]
  }

  function Pow8(k: nat): nat { if k == 0 then 1 else 8 * Pow8(k - 1) }

  lemma Pow8Five(k: nat)
    ensures Pow8(k + 5) == 32768 * Pow8(k)
  {
    assert Pow8(k + 5) == 8 * Pow8(k + 4) == 64 * Pow8(k + 3) == 512 * Pow8(k + 2) == 4096 * Pow8(k + 1);
  }

  lemma {:induction false} FewDigits(v: nat, base: nat, upper: bool, k: nat)
    requires 8 <= base <= 16 && v < Pow8(k)
    ensures |LowDigits(v, base, upper)| <= k
  {
    if v == 0 {
    } else {
      assert 8 * (v / base) <= base * (v / base) <= v;
      FewDigits(v / base, base, upper, k - 1);
    }
  }

  /** Unsigned 64-bit values leave room in the digit buffer. */
  lemma DigitsFit(v: u64, base: nat, flags: Flags)
    requires 8 <= base <= 16
    ensures |Collected(v, base, flags)| <= 22 && Kept(v, base, flags) == Collected(v, base, flags)
  {
    Pow8Five(0);
    Pow8Five(5);
    Pow8Five(10);
    Pow8Five(15);
    assert TWO64 <= 8 * 8 * Pow8(20) == Pow8(22);
    FewDigits(v, base, flags.upper, 22);
  }

  function Reverse(s: string): (r: string)
    ensures |r| == |s|
  {
    if s == "" then "" else Reverse(s[1..]) + [s[0]]
  }

  function Repeat(c: char, n: int): (r: string)
    ensures |r| == if n < 0 then 0 else n
    ensures forall i :: 0 <= i < |r| ==> r[i] == c
  {
    if n <= 0 then "" else seq(n, _ => c)
  }

  lemma OneMore(s: string, c: char, n: nat)
    ensures s + Repeat(c, n) + [c] == s + Repeat(c, n + 1)
  {
    assert Repeat(c, n) + [c] == Repeat(c, n + 1);
  }

  // ----- the text of a conversion, as it should be

  function Sign(negative: bool, flags: Flags): string {
    if negative then "-" else if flags.plus then "+" else if flags.space then " " else ""
  }

  /** At least `prec` digits; padded to `width` with spaces, or with zeros after the sign. */
  function StandardText(digits: string, negative: bool, prec: nat, width: nat, flags: Flags): string {
    Aligned(Sign(negative, flags), Repeat('0', prec - |digits|) + Reverse(digits), width, flags)
  }

  function Aligned(sign: string, long: string, width: nat, flags: Flags): string {
    var pad := width - |sign| - |long|;
    if flags.left then sign + long + Repeat(' ', pad)
    else if flags.zeroPad then sign + Repeat('0', pad) + long
    else Repeat(' ', pad) + sign + long
  }

  function Standard(v: nat, negative: bool, base: nat, prec: nat, width: nat, flags: Flags): string
    requires 8 <= base <= 16
  {
    StandardText(Collected(v, base, flags), negative, prec, width, flags)
  }

  // ----- the text of a conversion, as it is

  function Least(a: int, b: int): int { if a < b then a else b }

  function PadZeros(s: string, n: int): string { s + Repeat('0', n - |s|) }

  /** The digits with leading zeros and sign, in the order of the buffer; what does not fit is lost. */
  function Padded(digits: string, negative: bool, prec: nat, width: nat, flags: Flags): string {
    WithSign(if flags.left then digits else WithZeros(digits, Sign(negative, flags), prec, width, flags.zeroPad),
             Sign(negative, flags))
  }

  function WithZeros(digits: string, sign: string, prec: nat, width: nat, zeroPad: bool): string {
    var width' := if width > 0 && zeroPad && sign != "" then width - 1 else width;
    var precise := PadZeros(digits, Least(prec, BUFFER_SIZE));
    if zeroPad then PadZeros(precise, Least(width', BUFFER_SIZE)) else precise
  }

  function WithSign(digits: string, sign: string): string {
    if |digits| < BUFFER_SIZE then digits + sign else digits
  }

  function Reversed(s: string, width: nat, flags: Flags): string {
    if flags.left then Reverse(s) + Repeat(' ', width - |s|)
    else if flags.zeroPad then Reverse(s)
    else Repeat(' ', width - |s|) + Reverse(s)
  }

  /** The width without the place of a sign before zeros. */
  function InnerWidth(negative: bool, width: nat, flags: Flags): nat {
    if !flags.left && width > 0 && flags.zeroPad && Sign(negative, flags) != "" then width - 1 else width
  }

  /** `#`: a prefix for the base, in place of leading zeros if they filled the width. */
  function WithHash(s: string, base: nat, prec: nat, width: nat, flags: Flags): string {
    var filled := !flags.precision && s != "" && (|s| == prec || |s| == width);
    var kept := if !filled then s else if |s| > 1 && base == 16 then s[..|s| - 2] else s[..|s| - 1];
    var letter := if base == 16 then (if flags.upper then "X" else "x") else if base == 2 then "b" else "";
    var lettered := if |kept| < BUFFER_SIZE then kept + letter else kept;
    if |lettered| < BUFFER_SIZE then lettered + "0" else lettered
  }

  function Formatted(digits: string, negative: bool, base: nat, prec: nat, width: nat, flags: Flags): string {
    if !flags.hash then Padded(digits, negative, prec, width, flags)
    else
      var sign := Sign(negative, flags);
      var zeros := if flags.left then digits else WithZeros(digits, sign, prec, width, flags.zeroPad);
      WithSign(WithHash(zeros, base, prec, InnerWidth(negative, width, flags), flags), sign)
  }

  /** No prefix for zero. */
  function HashFlags(v: nat, flags: Flags): Flags { if v == 0 then flags.(hash := false) else flags }

  /** What a conversion writes. */
  function Rendered(v: nat, negative: bool, base: nat, prec: nat, width: nat, flags: Flags): string
    requires 2 <= base <= 16
  {
    var f := HashFlags(v, flags);
    Reversed(Formatted(Kept(v, base, f), negative, base, prec, width, f), width, f)
  }

  // ----- output

  /** `size_t` has 64 bits if `wide`, otherwise 32. */
  function Wrap(n: int, wide: bool): nat { if wide then n % TWO64 else n % TWO32 }

  lemma WrapNext(n: nat, wide: bool)
    ensures Wrap(Wrap(n, wide) + 1, wide) == Wrap(n + 1, wide)
  {
  }

  lemma WrapDifference(start: nat, n: nat, wide: bool)
    requires n < TWO32
    ensures Wrap(Wrap(start + n, wide) - Wrap(start, wide), wide) == n
  {
  }

  /** What is at index `i` after writing `out`, the index wrapping around; `c` was there before. */
  function LastAt(out: string, i: nat, wide: bool, c: char): char {
    if out == "" then c
    else if Wrap(|out| - 1, wide) == i then out[|out| - 1]
    else LastAt(out[..|out| - 1], i, wide, c)
  }

  lemma LastAtNext(out: string, d: char, i: nat, wide: bool, c: char)
    ensures LastAt(out + [d], i, wide, c) == if Wrap(|out|, wide) == i then d else LastAt(out, i, wide, c)
  {
    assert (out + [d])[..|out|] == out;
  }

  /** Without a wrap-around that is the text itself. */
  lemma {:induction false} LastAtShort(out: string, i: nat, wide: bool, c: char)
    requires |out| <= if wide then TWO64 else TWO32
    ensures LastAt(out, i, wide, c) == if i < |out| then out[i] else c
  {
    if out == "" {
    } else {
      LastAtShort(out[..|out| - 1], i, wide, c);
    }
  }

  /** A buffer for the first `maxlen` characters; `before` is what was in it, `out` everything that was written. */
  class Sink {
    const buffer: array<char>
    const maxlen: nat
    const wide: bool
    ghost const before: seq<char>
    ghost var out: string

    ghost predicate Valid()
      reads this, buffer
    {
      && maxlen <= buffer.Length == |before|
      && (forall i :: 0 <= i < maxlen ==> buffer[i] == LastAt(out, i, wide, before[i]))
      && forall i :: maxlen <= i < |before| ==> buffer[i] == before[i]
    }

    /** `idx` is the next index. */
    ghost predicate Next(idx: nat)
      reads this, buffer
    {
      Valid() && idx == Wrap(|out|, wide)
    }

    constructor (buffer: array<char>, maxlen: nat, wide: bool)
      requires maxlen <= buffer.Length
      ensures Next(0) && out == "" && before == buffer[..]
      ensures this.buffer == buffer && this.maxlen == maxlen && this.wide == wide
    {
      this.buffer, this.maxlen, this.wide, before, out := buffer, maxlen, wide, buffer[..], "";
    }

    /** `_out_buffer` for the next index, and `idx++`. */
    method Out(c: char, idx: nat) returns (idx': nat)
      requires Next(idx)
      modifies this, buffer
      ensures Next(idx') && out == old(out) + [c]
    {
      forall i | 0 <= i < maxlen
        ensures LastAt(out + [c], i, wide, before[i]) == if idx == i then c else LastAt(out, i, wide, before[i])
      {
        LastAtNext(out, c, i, wide, before[i]);
      }
      WrapNext(|out|, wide);
      if idx < maxlen {
        buffer[idx] := c;
      }
      out := out + [c];
      idx' := Wrap(idx + 1, wide);
    }

    method Spaces(n: int, idx: nat) returns (idx': nat)
      requires Next(idx)
      modifies this, buffer
      ensures Next(idx') && out == old(out) + Repeat(' ', n)
    {
      idx' := idx;
      var i := 0;
      assert Repeat(' ', 0) == "";
      while i < n
        invariant 0 <= i && (i <= n || i == 0) && Next(idx') && out == old(out) + Repeat(' ', i)
      {
        idx' := Out(' ', idx');
        OneMore(old(out), ' ', i);
        i := i + 1;
      }
    }

    /** Spaces up to `width`, counted by the difference to the index `start`, of which `n` are there. */
    method SpacesSince(start: nat, n: nat, width: u32, idx: nat) returns (idx': nat)
      requires Next(idx) && n <= |out| && n < TWO32 && start == Wrap(|out| - n, wide)
      modifies this, buffer
      ensures Next(idx') && out == old(out) + Repeat(' ', width - n)
    {
      idx' := idx;
      ghost var i: nat := 0;
      assert Repeat(' ', 0) == "";
      WrapDifference(|out| - n, n, wide);
      while Wrap(idx' - start, wide) < width
        invariant Next(idx') && Wrap(idx' - start, wide) == n + i && (i == 0 || n + i <= width)
        invariant out == old(out) + Repeat(' ', i)
        decreases width - i
      {
        idx' := Out(' ', idx');
        OneMore(old(out), ' ', i);
        i := i + 1;
        WrapDifference(|old(out)| - n, n + i, wide);
      }
    }

    /** `_out_rev` */
    method OutRev(buf: array<char>, len: nat, width: u32, flags: Flags, idx: nat) returns (idx': nat)
      requires Next(idx) && len <= buf.Length == BUFFER_SIZE && buf != buffer
      modifies this, buffer
      ensures Next(idx') && out == old(out) + Reversed(buf[..len], width, flags)
    {
      idx' := idx;
      if !flags.left && !flags.zeroPad {
        idx' := Spaces(width - len, idx');
      }
      idx' := OutReversed(buf, len, idx');
      if flags.left {
        idx' := SpacesSince(idx, len, width, idx');
      }
      Associate(old(out), if flags.left then Reverse(buf[..len]) else Repeat(' ', width - len),
                if flags.left then Repeat(' ', width - len) else Reverse(buf[..len]));
    }

    method OutReversed(buf: array<char>, len: nat, idx: nat) returns (idx': nat)
      requires Next(idx) && len <= buf.Length && buf != buffer
      modifies this, buffer
      ensures Next(idx') && out == old(out) + Reverse(buf[..len])
    {
      idx' := idx;
      var rest: nat := len;
      while rest > 0
        invariant rest <= len && Next(idx') && buf[..] == old(buf[..])
        invariant out + Reverse(buf[..rest]) == old(out) + Reverse(buf[..len])
      {
        rest := rest - 1;
        assert buf[..rest + 1] == buf[..rest] + [buf[rest]];
        ReverseSnoc(buf[..rest], buf[rest]);
        Associate(out, [buf[rest]], Reverse(buf[..rest]));
        idx' := Out(buf[rest], idx');
      }
      assert buf[..0] == "" && out + "" == out;
    }
  }

  /** Append zeros to `buf[..len]` up to `limit`. */
  method PadTo(buf: array<char>, len: nat, limit: nat) returns (len': nat)
    requires buf.Length == BUFFER_SIZE && len <= BUFFER_SIZE
    modifies buf
    ensures len' <= BUFFER_SIZE && buf[..len'] == PadZeros(old(buf[..len]), Least(limit, BUFFER_SIZE))
  {
    len' := len;
    while len' < limit && len' < BUFFER_SIZE
      invariant len <= len' <= BUFFER_SIZE && (len' == len || len' <= limit)
      invariant buf[..len'] == old(buf[..len]) + Repeat('0', len' - len)
    {
      buf[len'] := '0';
      assert buf[..len' + 1] == buf[..len'] + ['0'];
      assert Repeat('0', len' + 1 - len) == Repeat('0', len' - len) + ['0'];
      len' := len' + 1;
    }
  }

  method AddSign(buf: array<char>, len: nat, negative: bool, flags: Flags) returns (len': nat)
    requires buf.Length == BUFFER_SIZE && len <= BUFFER_SIZE
    modifies buf
    ensures len' <= BUFFER_SIZE
    ensures buf[..len'] == if len < BUFFER_SIZE then old(buf[..len]) + Sign(negative, flags) else old(buf[..len])
  {
    len' := len;
    if len < BUFFER_SIZE {
      if negative {
        buf[len] := '-';
        len' := len + 1;
      } else if flags.plus {
        buf[len] := '+';
        len' := len + 1;
      } else if flags.space {
        buf[len] := ' ';
        len' := len + 1;
      }
    }
  }

  method AddChar(buf: array<char>, len: nat, c: char) returns (len': nat)
    requires buf.Length == BUFFER_SIZE && len <= BUFFER_SIZE
    modifies buf
    ensures len' <= BUFFER_SIZE
    ensures buf[..len'] == if len < BUFFER_SIZE then old(buf[..len]) + [c] else old(buf[..len])
  {
    len' := len;
    if len < BUFFER_SIZE {
      buf[len] := c;
      len' := len + 1;
    }
  }

  method AddHash(buf: array<char>, len: nat, base: nat, prec: nat, width: nat, flags: Flags) returns (len': nat)
    requires buf.Length == BUFFER_SIZE && len <= BUFFER_SIZE
    modifies buf
    ensures len' <= BUFFER_SIZE && buf[..len'] == WithHash(old(buf[..len]), base, prec, width, flags)
  {
    len' := len;
    if !flags.precision && len > 0 && (len == prec || len == width) {
      len' := len' - 1;
      if len' > 0 && base == 16 {
        len' := len' - 1;
      }
    }
    if base == 16 && !flags.upper {
      len' := AddChar(buf, len', 'x');
    } else if base == 16 && flags.upper {
      len' := AddChar(buf, len', 'X');
    } else if base == 2 {
      len' := AddChar(buf, len', 'b');
    }
    len' := AddChar(buf, len', '0');
  }

  /** The leading zeros, and the width without the place of a sign before them. */
  method PadDigits(buf: array<char>, len: nat, negative: bool, prec: nat, width: u32, flags: Flags)
    returns (n: nat, w: u32)
    requires buf.Length == BUFFER_SIZE && len <= BUFFER_SIZE
    modifies buf
    ensures n <= BUFFER_SIZE && w == InnerWidth(negative, width, flags)
    ensures buf[..n] == if flags.left then old(buf[..len])
                        else WithZeros(old(buf[..len]), Sign(negative, flags), prec, width, flags.zeroPad)
  {
    n, w := len, width;
    if !flags.left {
      if w > 0 && flags.zeroPad && (negative || flags.plus || flags.space) {
        w := w - 1;
      }
      n := PadTo(buf, n, prec);
      if flags.zeroPad {
        n := PadTo(buf, n, w);
      }
    }
  }

  /** `_ntoa_format`: `buf[..len]` holds the digits. */
  method NtoaFormat(sink: Sink, idx: nat, buf: array<char>, len: nat, negative: bool, base: nat, prec: nat, width: u32,
                    flags: Flags)
    returns (idx': nat)
    requires sink.Next(idx) && buf != sink.buffer && buf.Length == BUFFER_SIZE && len <= BUFFER_SIZE
    modifies sink, sink.buffer, buf
    ensures sink.Next(idx')
    ensures sink.out
         == old(sink.out) + Reversed(Formatted(old(buf[..len]), negative, base, prec, width, flags), width, flags)
  {
    var n, w := PadDigits(buf, len, negative, prec, width, flags);
    if flags.hash {
      n := AddHash(buf, n, base, prec, w, flags);
    }
    n := AddSign(buf, n, negative, flags);
    idx' := sink.OutRev(buf, n, w, flags, idx);
  }

  /** `_ntoa_long` and `_ntoa_long_long`. */
  method Ntoa(sink: Sink, idx: nat, value: u64, negative: bool, base: nat, prec: nat, width: u32, flags: Flags)
    returns (idx': nat)
    requires sink.Next(idx) && 2 <= base <= 16
    modifies sink, sink.buffer
    ensures sink.Next(idx') && sink.out == old(sink.out) + Rendered(value, negative, base, prec, width, flags)
  {
    var buf := new char[BUFFER_SIZE];
    var len, f := 0, flags;
    if value == 0 {
      f := f.(hash := false);
    }
    if !f.precision || value > 0 {
      len := Digits(buf, value, base, f);
    }
    assert buf[..len] == Kept(value, base, f);
    idx' := NtoaFormat(sink, idx, buf, len, negative, base, prec, width, f);
  }

  /** The loop that fills the buffer; it runs at least once. */
  method Digits(buf: array<char>, value: u64, base: nat, flags: Flags) returns (len: nat)
    requires buf.Length == BUFFER_SIZE && 2 <= base <= 16 && (!flags.precision || value > 0)
    modifies buf
    ensures len <= BUFFER_SIZE && buf[..len] == Kept(value, base, flags)
  {
    var v: nat := value;
    StoreDigit(buf, 0, v, base, flags.upper);
    assert buf[..1] == [DigitChar(v % base, flags.upper)];
    FirstDigit(v, base, flags);
    len, v := 1, v / base;
    while v > 0 && len < BUFFER_SIZE
      invariant len <= BUFFER_SIZE && buf[..len] + LowDigits(v, base, flags.upper) == Collected(value, base, flags)
      decreases v
    {
      Smaller(v, base);
      NextDigit(buf[..len], v, base, flags.upper);
      StoreDigit(buf, len, v, base, flags.upper);
      len, v := len + 1, v / base;
    }
    assert v == 0 ==> buf[..len] + "" == buf[..len];
    assert Collected(value, base, flags)[..len] == buf[..len];
  }

  method StoreDigit(buf: array<char>, len: nat, v: nat, base: nat, upper: bool)
    requires buf.Length == BUFFER_SIZE && len < BUFFER_SIZE && 2 <= base <= 16
    modifies buf
    ensures buf[..len + 1] == old(buf[..len]) + [DigitChar(v % base, upper)]
  {
    buf[len] := DigitChar(v % base, upper);
  }

  lemma FirstDigit(v: nat, base: nat, flags: Flags)
    requires 2 <= base <= 16 && (!flags.precision || v > 0)
    ensures [DigitChar(v % base, flags.upper)] + LowDigits(v / base, base, flags.upper) == Collected(v, base, flags)
  {
  }

  lemma NextDigit(s: string, v: nat, base: nat, upper: bool)
    requires 2 <= base <= 16 && v > 0
    ensures s + LowDigits(v, base, upper) == s + [DigitChar(v % base, upper)] + LowDigits(v / base, base, upper)
  {
    Associate(s, [DigitChar(v % base, upper)], LowDigits(v / base, base, upper));
  }

  lemma Associate(a: string, b: string, c: string)
    ensures a + (b + c) == a + b + c
  {
  }

  lemma Smaller(v: nat, base: nat)
    requires v > 0 && base >= 2
    ensures v / base < v
  {
  }

  lemma {:induction false} ReverseSnoc(s: string, c: char)
    ensures Reverse(s + [c]) == [c] + Reverse(s)
  {
    if s == "" {
      assert s + [c] == [c] && [c][1..] == "";
    } else {
      assert (s + [c])[1..] == s[1..] + [c];
      ReverseSnoc(s[1..], c);
    }
  }
}
