/**
 The string conditions of the SQLite backend: prefix, suffix, substring and wildcard tests are
 compiled to `LIKE ? ESCAPE '\'` patterns. LIKE is given its standard meaning (section 8.5 of
 ISO/IEC 9075:1992), case sensitive because every connection sets `case_sensitive_like`.
 */
module LikePatterns {
  import opened WildMatch

  const ESCAPE: nat := 92
  const PERCENT: nat := 37
  const UNDERSCORE: nat := 95

  /** Section 8.5: the escape character may only precede `%`, `_` or itself. */
  predicate ValidPattern(p: seq<nat>)
    decreases |p|
  {
    if p == [] then true
    else if p[0] == ESCAPE then |p| >= 2 && p[1] in {ESCAPE, PERCENT, UNDERSCORE} && ValidPattern(p[2..])
    else ValidPattern(p[1..])
  }

  /** `s LIKE p ESCAPE '\'`. */
  ghost predicate Like(s: seq<nat>, p: seq<nat>)
    decreases |p|
  {
    if p == [] then s == []
    else if p[0] == ESCAPE then |p| >= 2 && s != [] && s[0] == p[1] && Like(s[1..], p[2..])
    else if p[0] == PERCENT then exists k | 0 <= k <= |s| :: Like(s[k..], p[1..])
    else s != [] && (p[0] == UNDERSCORE || p[0] == s[0]) && Like(s[1..], p[1..])
  }

  /** `str::replace` with a one-character needle. */
  function Replace(s: seq<nat>, needle: nat, replacement: seq<nat>): seq<nat> {
    if s == [] then [] else (if s[0] == needle then replacement else [s[0]]) + Replace(s[1..], needle, replacement)
  }

  function EscapeWildcard(s: seq<nat>): seq<nat> {
    Replace(
      Replace(
        Replace(s, ESCAPE, [ESCAPE, ESCAPE]),
        PERCENT, [ESCAPE, PERCENT]),
      UNDERSCORE, [ESCAPE, UNDERSCORE])
  }

  function StartsWithPattern(prefix: seq<nat>): seq<nat> { EscapeWildcard(prefix) + [PERCENT] }

  function EndsWithPattern(postfix: seq<nat>): seq<nat> { [PERCENT] + EscapeWildcard(postfix) }

  function ContainsPattern(needle: seq<nat>): seq<nat> { [PERCENT] + EscapeWildcard(needle) + [PERCENT] }

  function MatchesPattern(wildcard: seq<nat>): seq<nat> {
    Replace(Replace(EscapeWildcard(wildcard), ASTERISK, [PERCENT]), QUESTION_MARK, [UNDERSCORE])
  }

  /** The special characters by name: of wildcards, and of patterns. */
  lemma SpecialWildcards(t: seq<nat>, w: seq<nat>)
    ensures Wild(t, ['*' as nat] + w) <==> exists k | 0 <= k <= |t| :: Wild(t[k..], w)
    ensures Wild(t, ['?' as nat] + w) <==> t != [] && Wild(t[1..], w)
    ensures forall c: nat | c != '*' as nat && c != '?' as nat ::
              Wild(t, [c] + w) <==> t != [] && t[0] == c && Wild(t[1..], w)
  {
    assert forall c: nat :: ([c] + w)[1..] == w;
  }

  lemma SpecialInPatterns(s: seq<nat>, p: seq<nat>)
    ensures Like(s, ['%' as nat] + p) <==> exists k | 0 <= k <= |s| :: Like(s[k..], p)
    ensures Like(s, ['_' as nat] + p) <==> s != [] && Like(s[1..], p)
    ensures forall c: nat ::
              Like(s, ['\\' as nat] + ([c] + p)) <==> s != [] && s[0] == c && Like(s[1..], p)
    ensures forall c: nat | c != '%' as nat && c != '_' as nat && c != '\\' as nat ::
              Like(s, [c] + p) <==> s != [] && s[0] == c && Like(s[1..], p)
  {
    forall c: nat ensures ([c] + p)[1..] == p && (['\\' as nat] + ([c] + p))[2..] == p {
    }
  }

  /** One escaped character: what the three replacements should amount to. */
  function Escaped(c: nat): seq<nat> {
    if c in {ESCAPE, PERCENT, UNDERSCORE} then [ESCAPE, c] else [c]
  }

  function EscapedAll(s: seq<nat>): seq<nat> {
    if s == [] then [] else Escaped(s[0]) + EscapedAll(s[1..])
  }

  lemma {:induction false} ReplaceAppend(a: seq<nat>, b: seq<nat>, needle: nat, replacement: seq<nat>)
    ensures Replace(a + b, needle, replacement) == Replace(a, needle, replacement) + Replace(b, needle, replacement)
  {
    if a == [] {
      assert a + b == b;
    } else {
      assert (a + b)[1..] == a[1..] + b;
      ReplaceAppend(a[1..], b, needle, replacement);
    }
  }

  lemma ReplaceOne(c: nat, needle: nat, replacement: seq<nat>)
    ensures Replace([c], needle, replacement) == if c == needle then replacement else [c]
  {
    assert [c][1..] == [];
  }

  lemma ReplaceTwo(c: nat, d: nat, needle: nat, replacement: seq<nat>)
    ensures Replace([c, d], needle, replacement)
         == (if c == needle then replacement else [c]) + (if d == needle then replacement else [d])
  {
    assert [c, d][1..] == [d] && [d][1..] == [];
    assert Replace([d], needle, replacement) == if d == needle then replacement else [d];
  }

  /**
   The order of the three replacements matters (the escape character goes first, or it would be
   doubled again); in this order they are exactly the character-wise escape.
   */
  lemma {:induction false} EscapeIsCharacterWise(s: seq<nat>)
    ensures EscapeWildcard(s) == EscapedAll(s)
  {
    if s == [] {
    } else {
      var c, rest := s[0], s[1..];
      assert s == [c] + rest;
      EscapeIsCharacterWise(rest);
      ReplaceAppend([c], rest, ESCAPE, [ESCAPE, ESCAPE]);
      var a, a' := Replace([c], ESCAPE, [ESCAPE, ESCAPE]), Replace(rest, ESCAPE, [ESCAPE, ESCAPE]);
      ReplaceAppend(a, a', PERCENT, [ESCAPE, PERCENT]);
      var b, b' := Replace(a, PERCENT, [ESCAPE, PERCENT]), Replace(a', PERCENT, [ESCAPE, PERCENT]);
      ReplaceAppend(b, b', UNDERSCORE, [ESCAPE, UNDERSCORE]);
      assert Replace(b, UNDERSCORE, [ESCAPE, UNDERSCORE]) == Escaped(c) by {
        ReplaceOne(c, ESCAPE, [ESCAPE, ESCAPE]);
        ReplaceOne(c, PERCENT, [ESCAPE, PERCENT]);
        ReplaceOne(c, UNDERSCORE, [ESCAPE, UNDERSCORE]);
        ReplaceTwo(ESCAPE, ESCAPE, PERCENT, [ESCAPE, PERCENT]);
        ReplaceTwo(ESCAPE, ESCAPE, UNDERSCORE, [ESCAPE, UNDERSCORE]);
        ReplaceTwo(ESCAPE, PERCENT, UNDERSCORE, [ESCAPE, UNDERSCORE]);
      }
    }
  }

  lemma LikeCharacter(s: seq<nat>, c: nat, p: seq<nat>)
    ensures Like(s, Escaped(c) + p) <==> s != [] && s[0] == c && Like(s[1..], p)
    ensures ValidPattern(p) ==> ValidPattern(Escaped(c) + p)
  {
    assert (Escaped(c) + p)[|Escaped(c)|..] == p;
  }

  /** An escaped literal at the front of a pattern stands for itself, and for nothing else. */
  lemma {:induction false} LikeLiteral(s: seq<nat>, literal: seq<nat>, p: seq<nat>)
    ensures Like(s, EscapedAll(literal) + p) <==> literal <= s && Like(s[|literal|..], p)
    ensures ValidPattern(p) ==> ValidPattern(EscapedAll(literal) + p)
  {
    if literal == [] {
      assert EscapedAll(literal) + p == p && s[0..] == s;
    } else {
      var c, rest := literal[0], literal[1..];
      var q := EscapedAll(rest) + p;
      assert EscapedAll(literal) + p == Escaped(c) + q;
      LikeCharacter(s, c, q);
      LikeLiteral(if s == [] then [] else s[1..], rest, p);
      if s != [] && s[0] == c {
        PrefixCons(c, rest, s[1..]);
        assert s == [c] + s[1..] && literal == [c] + rest;
        if literal <= s { assert s[1..][|rest|..] == s[|literal|..]; }
      }
    }
  }

  lemma PrefixCons(c: nat, a: seq<nat>, b: seq<nat>)
    ensures [c] + a <= [c] + b <==> a <= b
  {
    assert ([c] + a)[1..] == a && ([c] + b)[1..] == b;
    if a <= b {
      assert [c] + b == [c] + a + b[|a|..];
    }
    if [c] + a <= [c] + b {
      assert forall i :: 0 <= i < |a| ==> a[i] == ([c] + a)[i + 1] == ([c] + b)[i + 1];
    }
  }

  lemma LikeStartsWith(s: seq<nat>, prefix: seq<nat>)
    ensures ValidPattern(StartsWithPattern(prefix))
    ensures Like(s, StartsWithPattern(prefix)) <==> prefix <= s
  {
    EscapeIsCharacterWise(prefix);
    LikeLiteral(s, prefix, [PERCENT]);
    assert [PERCENT][1..] == [] && ValidPattern([PERCENT]);
    if prefix <= s {
      var tail := s[|prefix|..];
      assert Like(tail[|tail|..], [PERCENT][1..]);
    }
  }

  lemma LikeEndsWith(s: seq<nat>, postfix: seq<nat>)
    ensures ValidPattern(EndsWithPattern(postfix))
    ensures Like(s, EndsWithPattern(postfix)) <==> exists k :: 0 <= k <= |s| && s[k..] == postfix
  {
    EscapeIsCharacterWise(postfix);
    var p := EscapedAll(postfix);
    assert EndsWithPattern(postfix)[1..] == p;
    forall k | 0 <= k <= |s| ensures Like(s[k..], p) <==> s[k..] == postfix {
      LikeLiteral(s[k..], postfix, []);
      assert p + [] == p;
    }
    LikeLiteral([], postfix, []);
    assert p + [] == p;
  }

  lemma LikeContains(s: seq<nat>, needle: seq<nat>)
    ensures ValidPattern(ContainsPattern(needle))
    ensures Like(s, ContainsPattern(needle)) <==> exists k :: 0 <= k <= |s| && needle <= s[k..]
  {
    EscapeIsCharacterWise(needle);
    assert ContainsPattern(needle)[1..] == StartsWithPattern(needle);
    LikeStartsWith([], needle);
    forall k | 0 <= k <= |s| ensures Like(s[k..], StartsWithPattern(needle)) <==> needle <= s[k..] {
      LikeStartsWith(s[k..], needle);
    }
  }

  /** One character of a compiled wildcard. */
  function Compiled(c: nat): seq<nat> {
    if c == ASTERISK then [PERCENT] else if c == QUESTION_MARK then [UNDERSCORE] else Escaped(c)
  }

  function CompiledAll(w: seq<nat>): seq<nat> {
    if w == [] then [] else Compiled(w[0]) + CompiledAll(w[1..])
  }

  lemma {:induction false} MatchesIsCharacterWise(w: seq<nat>)
    ensures MatchesPattern(w) == CompiledAll(w)
  {
    EscapeIsCharacterWise(w);
    if w == [] {
    } else {
      var c, rest := w[0], w[1..];
      MatchesIsCharacterWise(rest);
      EscapeIsCharacterWise(rest);
      var a, a' := Escaped(c), EscapedAll(rest);
      ReplaceAppend(a, a', ASTERISK, [PERCENT]);
      var b, b' := Replace(a, ASTERISK, [PERCENT]), Replace(a', ASTERISK, [PERCENT]);
      ReplaceAppend(b, b', QUESTION_MARK, [UNDERSCORE]);
      assert Replace(b, QUESTION_MARK, [UNDERSCORE]) == Compiled(c) by {
        ReplaceOne(c, ASTERISK, [PERCENT]);
        ReplaceOne(c, QUESTION_MARK, [UNDERSCORE]);
        ReplaceOne(PERCENT, QUESTION_MARK, [UNDERSCORE]);
        ReplaceTwo(ESCAPE, c, ASTERISK, [PERCENT]);
        ReplaceTwo(ESCAPE, c, QUESTION_MARK, [UNDERSCORE]);
      }
    }
  }

  /** Compiling a wildcard to LIKE keeps its meaning, for every text and every pattern. */
  lemma LikeMatches(s: seq<nat>, w: seq<nat>)
    ensures ValidPattern(MatchesPattern(w))
    ensures Like(s, MatchesPattern(w)) <==> Wild(s, w)
  {
    MatchesIsCharacterWise(w);
    CompiledMeaning(s, w);
  }

  lemma {:induction false} CompiledMeaning(s: seq<nat>, w: seq<nat>)
    ensures ValidPattern(CompiledAll(w))
    ensures Like(s, CompiledAll(w)) <==> Wild(s, w)
    decreases |w|
  {
    if w == [] {
    } else {
      var c, rest := w[0], w[1..];
      var p, p' := CompiledAll(w), CompiledAll(rest);
      assert p[|Compiled(c)|..] == p';
      CompiledMeaning([], rest);
      if c == ASTERISK {
        forall k | 0 <= k <= |s| ensures Like(s[k..], p') <==> Wild(s[k..], rest) {
          CompiledMeaning(s[k..], rest);
        }
      } else if s != [] {
        CompiledMeaning(s[1..], rest);
      }
    }
  }
}
