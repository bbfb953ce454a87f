/**
 The native backend runs `fast_wild_match` on UTF-8 bytes, the SQLite backend runs LIKE on
 characters. This module says when the two readings of one wildcard agree.
 */
module Utf8Wild {
  import opened Bytes
  import opened WildMatch
  import opened LikePatterns

  /** A Unicode scalar value, Rust's `char`. */
  type Scalar = c: nat | c < 0x110000 && !(0xD800 <= c < 0xE000)

  /** The number of bytes of a UTF-8 form, told by its first byte. */
  function LengthFrom(lead: byte): nat {
    if lead < 0x80 then 1 else if lead < 0xE0 then 2 else if lead < 0xF0 then 3 else 4
  }

  /** Table 3-6 of the Unicode Standard: the well-formed UTF-8 form of a scalar value. */
  function Utf8Of(c: Scalar): (r: seq<byte>)
    ensures |r| >= 1 && |r| == LengthFrom(r[0])
    ensures c < 0x80 <==> r[0] < 0x80
    ensures c < 0x80 ==> r == [c]
    ensures r[0] < 0x80 || r[0] >= 0xC0
    ensures forall i :: 1 <= i < |r| ==> 0x80 <= r[i] < 0xC0
  {
    if c < 0x80 then [c]
    else if c < 0x800 then [0xC0 + c / 0x40] + Continuation(c)
    else if c < 0x10000 then [0xE0 + c / 0x40 / 0x40] + Continuation(c / 0x40) + Continuation(c)
    else [0xF0 + c / 0x40 / 0x40 / 0x40]
         + Continuation(c / 0x40 / 0x40) + Continuation(c / 0x40) + Continuation(c)
  }

  /** The continuation byte that carries the low six bits of `n`. */
  function Continuation(n: nat): (r: seq<byte>)
    ensures |r| == 1 && 0x80 <= r[0] < 0xC0
  {
    [0x80 + n % 0x40]
  }

  /** The scalar value of a UTF-8 form. */
  function Decoded(r: seq<int>): int {
    if |r| == 1 then r[0]
    else if |r| == 2 then (r[0] - 0xC0) * 0x40 + r[1] - 0x80
    else if |r| == 3 then ((r[0] - 0xE0) * 0x40 + r[1] - 0x80) * 0x40 + r[2] - 0x80
    else if |r| == 4 then (((r[0] - 0xF0) * 0x40 + r[1] - 0x80) * 0x40 + r[2] - 0x80) * 0x40 + r[3] - 0x80
    else 0
  }

  function Utf8(s: seq<Scalar>): seq<byte> {
    if s == [] then [] else Utf8Of(s[0]) + Utf8(s[1..])
  }

  ghost predicate Ascii(s: seq<Scalar>) {
    forall i :: 0 <= i < |s| ==> s[i] < 0x80
  }

  lemma {:induction false} Utf8Append(a: seq<Scalar>, b: seq<Scalar>)
    ensures Utf8(a + b) == Utf8(a) + Utf8(b)
  {
    if a == [] {
      assert a + b == b;
    } else {
      assert (a + b)[1..] == a[1..] + b;
      Utf8Append(a[1..], b);
    }
  }

  lemma Utf8RoundTrip(c: Scalar)
    ensures Decoded(Utf8Of(c)) == c
  {
    var q := c / 0x40;
    var p := q / 0x40;
    assert c == q * 0x40 + c % 0x40;
    assert q == p * 0x40 + q % 0x40;
    assert p == p / 0x40 * 0x40 + p % 0x40;
  }

  /** No code is a prefix of another one. */
  lemma PrefixFree(c: Scalar, d: Scalar, x: seq<byte>, y: seq<byte>)
    requires Utf8Of(c) + x == Utf8Of(d) + y
    ensures c == d && x == y
  {
    var u, v := Utf8Of(c), Utf8Of(d);
    SamePrefix(u, x, v, y);
    Utf8RoundTrip(c);
    Utf8RoundTrip(d);
  }

  lemma SamePrefix(u: seq<byte>, x: seq<byte>, v: seq<byte>, y: seq<byte>)
    requires u != [] && v != [] && |u| == LengthFrom(u[0]) && |v| == LengthFrom(v[0])
    requires u + x == v + y
    ensures u == v && x == y
  {
    assert u[0] == (u + x)[0] == (v + y)[0] == v[0];
    assert u == (u + x)[..|u|] == (v + y)[..|v|] == v;
    assert x == (u + x)[|u|..] == (v + y)[|v|..] == y;
  }

  /** A run of bytes none of which is `*` or `?` only matches itself. */
  lemma {:induction false} WildLiteral(t: seq<nat>, literal: seq<nat>, w: seq<nat>)
    requires forall i :: 0 <= i < |literal| ==> literal[i] != ASTERISK && literal[i] != QUESTION_MARK
    ensures Wild(t, literal + w) <==> literal <= t && Wild(t[|literal|..], w)
  {
    if literal == [] {
      assert literal + w == w && t[0..] == t;
    } else {
      assert (literal + w)[1..] == literal[1..] + w;
      if t != [] && t[0] == literal[0] {
        WildLiteral(t[1..], literal[1..], w);
        PrefixCons(t[0], literal[1..], t[1..]);
        assert t == [t[0]] + t[1..] && literal == [t[0]] + literal[1..];
        if literal <= t { assert t[1..][|literal| - 1..] == t[|literal|..]; }
      }
    }
  }

  /**
   A match that starts in the middle of a character is only possible for a pattern that starts with
   `*`, and then the match may as well start behind that character.
   */
  lemma {:induction false} MidCharacter(tail: seq<byte>, t: seq<Scalar>, w: seq<Scalar>)
    requires tail != [] && forall i :: 0 <= i < |tail| ==> 0x80 <= tail[i] < 0xC0
    requires QUESTION_MARK !in w && Wild(tail + Utf8(t), Utf8(w))
    ensures Wild(t, w)
    decreases |w|, 2
  {
    if w == [] {
    } else {
      var bytes, pattern := tail + Utf8(t), Utf8(w[1..]);
      if w[0] == ASTERISK {
        assert Utf8(w)[1..] == pattern;
        var k :| 0 <= k <= |bytes| && Wild(bytes[k..], pattern);
        if k < |tail| {
          assert bytes[k..] == tail[k..] + Utf8(t);
          MidCharacter(tail[k..], t, w[1..]);
          assert t[0..] == t;
        } else {
          assert bytes[k..] == Utf8(t)[k - |tail|..];
          assert Wild(Utf8(t), Utf8(w));
          BytesAndCharacters(t, w);
        }
      } else {
        assert false;
      }
    }
  }

  /** From any byte position the rest of the text is a character suffix, perhaps after a cut one. */
  lemma {:induction false} CutText(t: seq<Scalar>, k: nat) returns (tail: seq<byte>, m: nat)
    requires k <= |Utf8(t)|
    ensures m <= |t| && Utf8(t)[k..] == tail + Utf8(t[m..])
    ensures forall i :: 0 <= i < |tail| ==> 0x80 <= tail[i] < 0xC0
  {
    if k == 0 {
      tail, m := [], 0;
      assert t[0..] == t;
    } else if k < |Utf8Of(t[0])| {
      tail, m := Utf8Of(t[0])[k..], 1;
    } else {
      var m';
      tail, m' := CutText(t[1..], k - |Utf8Of(t[0])|);
      m := m' + 1;
      assert t[1..][m'..] == t[m..];
    }
  }

  lemma {:induction false} AsciiUtf8(t: seq<Scalar>)
    requires Ascii(t)
    ensures Utf8(t) == t
  {
    if t == [] {
    } else {
      AsciiUtf8(t[1..]);
      assert t == [t[0]] + t[1..];
    }
  }

  /**
   Byte matching equals character matching whenever the text is ASCII, or the pattern has no `?`
   (UTF-8 is self-synchronising, so a literal never matches across character boundaries).
   */
  lemma {:induction false} BytesAndCharacters(t: seq<Scalar>, w: seq<Scalar>)
    requires Ascii(t) || QUESTION_MARK !in w
    ensures Wild(Utf8(t), Utf8(w)) <==> Wild(t, w)
    decreases |w|, 1
  {
    if w == [] {
    } else {
      var c, rest := w[0], w[1..];
      assert Utf8(w)[|Utf8Of(c)|..] == Utf8(rest);
      if c == ASTERISK {
        StarCase(t, w);
      } else if c == QUESTION_MARK {
        AsciiUtf8(t);
        if t != [] {
          BytesAndCharacters(t[1..], rest);
          assert Utf8(t)[1..] == Utf8(t[1..]);
        }
      } else {
        LiteralCase(t, w);
      }
    }
  }

  lemma StarCase(t: seq<Scalar>, w: seq<Scalar>)
    requires Ascii(t) || QUESTION_MARK !in w
    requires w != [] && w[0] == ASTERISK
    ensures Wild(Utf8(t), Utf8(w)) <==> Wild(t, w)
    decreases |w|, 0
  {
    var rest := w[1..];
    assert Utf8(w)[1..] == Utf8(rest);
    if Wild(Utf8(t), Utf8(w)) {
      var k :| 0 <= k <= |Utf8(t)| && Wild(Utf8(t)[k..], Utf8(rest));
      var m := StarForward(t, rest, k);
      assert Wild(t[m..], rest);
    }
    if Wild(t, w) {
      var k :| 0 <= k <= |t| && Wild(t[k..], rest);
      BytesAndCharacters(t[k..], rest);
      Utf8Suffix(t, k);
    }
  }

  lemma Utf8Suffix(t: seq<Scalar>, k: nat)
    requires k <= |t|
    ensures |Utf8(t[..k])| <= |Utf8(t)| && Utf8(t)[|Utf8(t[..k])|..] == Utf8(t[k..])
  {
    Utf8Append(t[..k], t[k..]);
    assert t == t[..k] + t[k..];
  }

  lemma StarForward(t: seq<Scalar>, w: seq<Scalar>, k: nat) returns (m: nat)
    requires Ascii(t) || QUESTION_MARK !in w
    requires k <= |Utf8(t)| && Wild(Utf8(t)[k..], Utf8(w))
    ensures m <= |t| && Wild(t[m..], w)
    decreases |w|, 3
  {
    if Ascii(t) {
      AsciiUtf8(t);
      AsciiUtf8(t[k..]);
      m := k;
      BytesAndCharacters(t[m..], w);
    } else {
      var tail;
      tail, m := CutText(t, k);
      if tail == [] {
        assert tail + Utf8(t[m..]) == Utf8(t[m..]);
        BytesAndCharacters(t[m..], w);
      } else {
        MidCharacter(tail, t[m..], w);
      }
    }
  }

  lemma {:induction false} LiteralCase(t: seq<Scalar>, w: seq<Scalar>)
    requires Ascii(t) || QUESTION_MARK !in w
    requires w != [] && w[0] != ASTERISK && w[0] != QUESTION_MARK
    ensures Wild(Utf8(t), Utf8(w)) <==> Wild(t, w)
    decreases |w|, 0
  {
    var c, rest := w[0], w[1..];
    var code := Utf8Of(c);
    assert Utf8(w) == code + Utf8(rest);
    WildLiteral(Utf8(t), code, Utf8(rest));
    FirstCode(t, c);
    if t != [] && t[0] == c {
      BytesAndCharacters(t[1..], rest);
    }
  }

  /** The bytes begin with the code of a character exactly when the text begins with the character. */
  lemma FirstCode(t: seq<Scalar>, c: Scalar)
    ensures Utf8Of(c) <= Utf8(t) <==> t != [] && t[0] == c
    ensures t != [] && t[0] == c ==> Utf8(t)[|Utf8Of(c)|..] == Utf8(t[1..])
  {
    if t != [] {
      CodeInFront(c, t[0], Utf8(t[1..]));
    }
  }

  lemma CodeInFront(c: Scalar, d: Scalar, x: seq<byte>)
    ensures Utf8Of(c) <= Utf8Of(d) + x <==> c == d
    ensures (Utf8Of(d) + x)[|Utf8Of(d)|..] == x
  {
    var code, s := Utf8Of(c), Utf8Of(d) + x;
    if code <= s {
      var y := s[|code|..];
      assert s == code + y;
      PrefixFree(d, c, x, y);
    }
  }

  /** The wildcard that asks for exactly `n` characters. */
  function Questions(n: nat): (w: seq<Scalar>)
    ensures |w| == n
  {
    if n == 0 then [] else [QUESTION_MARK] + Questions(n - 1)
  }

  lemma {:induction false} QuestionsCount(t: seq<nat>, n: nat)
    ensures Wild(t, Questions(n)) <==> |t| == n
  {
    if n == 0 {
    } else {
      assert Questions(n)[1..] == Questions(n - 1);
      if t != [] { QuestionsCount(t[1..], n - 1); }
    }
  }

  lemma {:induction false} Utf8Length(t: seq<Scalar>)
    ensures |Utf8(t)| >= |t|
    ensures |Utf8(t)| == |t| <==> Ascii(t)
  {
    if t == [] {
    } else {
      Utf8Length(t[1..]);
      assert t == [t[0]] + t[1..];
      assert Ascii(t) <==> t[0] < 0x80 && Ascii(t[1..]) by {
        assert forall i :: 0 <= i < |t[1..]| ==> t[1..][i] == t[i + 1];
        if t[0] < 0x80 && Ascii(t[1..]) {
          assert forall i :: 0 < i < |t| ==> t[i] == t[1..][i - 1];
        }
      }
    }
  }

  /**
   The two backends agree on a stored text for every wildcard exactly when the text is ASCII: `?`
   is one byte natively and one character in SQL.
   */
  lemma BackendsAgreeOnTextExactly(t: seq<Scalar>)
    ensures (forall w: seq<Scalar> :: Wild(Utf8(t), Utf8(w)) <==> Like(t, MatchesPattern(w))) <==> Ascii(t)
  {
    forall w: seq<Scalar> ensures Like(t, MatchesPattern(w)) <==> Wild(t, w) {
      LikeMatches(t, w);
    }
    if Ascii(t) {
      forall w: seq<Scalar> ensures Wild(Utf8(t), Utf8(w)) <==> Like(t, MatchesPattern(w)) {
        BytesAndCharacters(t, w);
      }
    } else {
      var w := Questions(|t|);
      QuestionsAreAscii(|t|);
      QuestionsCount(t, |t|);
      QuestionsCount(Utf8(t), |t|);
      Utf8Length(t);
      assert Like(t, MatchesPattern(w)) && !Wild(Utf8(t), Utf8(w));
    }
  }

  lemma {:induction false} QuestionsAreAscii(n: nat)
    ensures Utf8(Questions(n)) == Questions(n)
  {
    if n == 0 {
    } else {
      QuestionsAreAscii(n - 1);
      assert Questions(n)[1..] == Questions(n - 1);
    }
  }

  /** For a wildcard without `?` the two backends agree on every text. */
  lemma BackendsAgreeWithoutQuestionMark(t: seq<Scalar>, w: seq<Scalar>)
    requires QUESTION_MARK !in w
    ensures Wild(Utf8(t), Utf8(w)) <==> Like(t, MatchesPattern(w))
  {
    LikeMatches(t, w);
    BytesAndCharacters(t, w);
  }
}
