/**
 `fast_wild_match`: one pass over the text with a single backtrack point, proved equal to the
 textbook meaning of `*` (any run) and `?` (any one byte).
 */
module WildMatch {
  import opened Bytes

  const ASTERISK: byte := 42
  const QUESTION_MARK: byte := 63

  /** The meaning of a wildcard pattern `w` over symbols: does it describe all of `t`? */
  ghost predicate Wild(t: seq<nat>, w: seq<nat>)
    decreases |w|
  {
    if w == [] then t == []
    else if w[0] == ASTERISK then exists k | 0 <= k <= |t| :: Wild(t[k..], w[1..])
    else t != [] && (w[0] == QUESTION_MARK || w[0] == t[0]) && Wild(t[1..], w[1..])
  }

  /** The pattern from position `j` describes the text from position `i`. */
  ghost predicate From(t: seq<nat>, i: nat, w: seq<nat>, j: nat)
    requires i <= |t| && j <= |w|
  {
    Wild(t[i..], w[j..])
  }

  /** The pattern from position `j` describes some suffix of the text starting at `i` or later. */
  ghost predicate FromSomewhere(t: seq<nat>, i: nat, w: seq<nat>, j: nat)
    requires j <= |w|
  {
    exists k :: i <= k <= |t| && From(t, k, w, j)
  }

  lemma FromUnfold(t: seq<nat>, i: nat, w: seq<nat>, j: nat)
    requires i <= |t| && j <= |w|
    ensures j == |w| ==> (From(t, i, w, j) <==> i == |t|)
    ensures j < |w| && w[j] == ASTERISK ==> (From(t, i, w, j) <==> FromSomewhere(t, i, w, j + 1))
    ensures j < |w| && w[j] != ASTERISK ==>
              (From(t, i, w, j) <==>
               i < |t| && (w[j] == QUESTION_MARK || w[j] == t[i]) && From(t, i + 1, w, j + 1))
  {
    if j < |w| {
      assert w[j..][1..] == w[j + 1..];
      if w[j] == ASTERISK {
        if From(t, i, w, j) {
          var k :| 0 <= k <= |t[i..]| && Wild(t[i..][k..], w[j..][1..]);
          assert t[i..][k..] == t[i + k..];
          assert From(t, i + k, w, j + 1);
        }
        if FromSomewhere(t, i, w, j + 1) {
          var k :| i <= k <= |t| && From(t, k, w, j + 1);
          assert t[i..][k - i..] == t[k..];
        }
      } else if i < |t| {
        assert t[i..][1..] == t[i + 1..];
      }
    }
  }

  /** A run of consecutive stars means the same as one. */
  lemma {:induction false} SkipStars(t: seq<nat>, i: nat, w: seq<nat>, j: nat, j': nat)
    requires i <= |t| && j <= j' <= |w|
    requires forall m :: j <= m < j' ==> w[m] == ASTERISK
    ensures FromSomewhere(t, i, w, j) <==> FromSomewhere(t, i, w, j')
    decreases j' - j
  {
    if j < j' {
      SkipStars(t, i, w, j + 1, j');
      forall k | i <= k <= |t| ensures From(t, k, w, j) <==> FromSomewhere(t, k, w, j + 1) {
        FromUnfold(t, k, w, j);
      }
      if FromSomewhere(t, i, w, j + 1) {
        assert From(t, i, w, j);
      }
    }
  }

  /** `w[j..j']` has no star and its symbols accept `t[i..]` one for one. */
  ghost predicate SegmentAt(t: seq<nat>, i: nat, w: seq<nat>, j: nat, j': nat)
    requires j <= j' <= |w|
  {
    && (forall m :: j <= m < j' ==> w[m] != ASTERISK)
    && i + (j' - j) <= |t|
    && forall m :: j <= m < j' ==> w[m] == QUESTION_MARK || w[m] == t[i + m - j]
  }

  /** A star-free segment of the pattern consumes exactly its own length. */
  lemma {:induction false} SegmentStep(t: seq<nat>, i: nat, w: seq<nat>, j: nat, j': nat)
    requires i <= |t| && j <= j' <= |w|
    requires forall m :: j <= m < j' ==> w[m] != ASTERISK
    ensures From(t, i, w, j) <==> SegmentAt(t, i, w, j, j') && From(t, i + (j' - j), w, j')
    decreases j' - j
  {
    if j < j' {
      FromUnfold(t, i, w, j);
      if i < |t| {
        SegmentStep(t, i + 1, w, j + 1, j');
      }
    }
  }

  /**
   The leftmost placement of a star-free segment followed by a star loses no match: whatever a
   later placement leaves over, the star can absorb.
   */
  lemma LeftmostSuffices(t: seq<nat>, i: nat, w: seq<nat>, j: nat, j': nat)
    requires i <= |t| && j <= j' < |w| && w[j'] == ASTERISK
    requires SegmentAt(t, i, w, j, j')
    ensures FromSomewhere(t, i, w, j) <==> FromSomewhere(t, i + (j' - j), w, j' + 1)
  {
    var n := j' - j;
    forall k | i <= k <= |t|
      ensures From(t, k, w, j) <==> SegmentAt(t, k, w, j, j') && FromSomewhere(t, k + n, w, j' + 1)
    {
      SegmentStep(t, k, w, j, j');
      if k + n <= |t| { FromUnfold(t, k + n, w, j'); }
    }
    if FromSomewhere(t, i + n, w, j' + 1) {
      assert From(t, i, w, j);
    }
  }

  /** Without a match at `i` itself the search may restart one symbol later. */
  lemma RestartLater(t: seq<nat>, i: nat, w: seq<nat>, j: nat)
    requires i < |t| && j <= |w| && !From(t, i, w, j)
    ensures FromSomewhere(t, i, w, j) <==> FromSomewhere(t, i + 1, w, j)
  {
  }

  /** A star-free rest of the pattern longer than what is left of the text cannot match any more. */
  lemma {:induction false} TooShort(t: seq<nat>, i: nat, w: seq<nat>, j: nat, j': nat)
    requires i <= |t| && j <= j' <= |w|
    requires forall m :: j <= m < j' ==> w[m] != ASTERISK
    requires |t| - i < j' - j
    ensures !FromSomewhere(t, i, w, j)
  {
    forall k | i <= k <= |t| ensures !From(t, k, w, j) {
      SegmentStep(t, k, w, j, j');
    }
  }

  /** What the four indices of the matcher mean for the answer. */
  ghost predicate Progress(t: seq<nat>, w: seq<nat>, iTame: nat, iWild: nat, iLast: nat, iStar: nat)
  {
    && iLast <= iTame <= |t| && iStar <= iWild <= |w|
    && if iStar == 0 then
         iLast == 0 && (Wild(t, w) <==> From(t, iTame, w, iWild))
       else
         && iStar < |w| && w[iStar] != ASTERISK
         && iTame - iLast == iWild - iStar
         && SegmentAt(t, iLast, w, iStar, iWild)
         && (Wild(t, w) <==> FromSomewhere(t, iLast, w, iStar))
  }

  /** Accepting one symbol keeps the meaning of the indices. */
  lemma Advance(t: seq<nat>, w: seq<nat>, iTame: nat, iWild: nat, iLast: nat, iStar: nat)
    requires Progress(t, w, iTame, iWild, iLast, iStar)
    requires iTame < |t| && iWild < |w| && w[iWild] != ASTERISK
    requires w[iWild] == QUESTION_MARK || w[iWild] == t[iTame]
    ensures Progress(t, w, iTame + 1, iWild + 1, iLast, iStar)
  {
    FromUnfold(t, iTame, w, iWild);
  }

  /** A mismatch rules out the placement at `iLast`, and without a star the whole match. */
  lemma Mismatch(t: seq<nat>, w: seq<nat>, iTame: nat, iWild: nat, iLast: nat, iStar: nat)
    requires Progress(t, w, iTame, iWild, iLast, iStar)
    requires iTame < |t|
    requires iWild < |w| ==> w[iWild] != ASTERISK && w[iWild] != QUESTION_MARK && w[iWild] != t[iTame]
    ensures iStar == 0 ==> !Wild(t, w)
    ensures iStar > 0 ==> (Wild(t, w) <==> FromSomewhere(t, iLast + 1, w, iStar))
  {
    FromUnfold(t, iTame, w, iWild);
    if iStar > 0 {
      SegmentStep(t, iLast, w, iStar, iWild);
      RestartLater(t, iLast, w, iStar);
    }
  }

  /** The loop over consecutive stars. */
  method PastStars(wild: seq<byte>, first: nat) returns (i: nat)
    requires Get(wild, first) == Some(ASTERISK)
    ensures first < i <= |wild| && Get(wild, i) != Some(ASTERISK)
    ensures forall m :: first <= m < i ==> wild[m] == ASTERISK
  {
    i := first + 1;
    while Get(wild, i) == Some(ASTERISK)
      invariant first < i <= |wild|
      invariant forall m :: first <= m < i ==> wild[m] == ASTERISK
      decreases |wild| - i
    {
      i := i + 1;
    }
  }

  method FastWildMatch(tame: seq<byte>, wild: seq<byte>) returns (r: bool)
    ensures r <==> Wild(tame, wild)
  {
    var iWild: nat, iTame: nat, iLast: nat, iStar: nat := 0, 0, 0, 0;
    assert tame[0..] == tame && wild[0..] == wild;
    while iTame < |tame|
      invariant Progress(tame, wild, iTame, iWild, iLast, iStar)
      invariant iStar > 0 ==> iStar < iWild
      decreases |wild| - iStar, |tame| - iLast, |tame| - iTame
    {
      if Get(wild, iWild) == Some(QUESTION_MARK) {
        Advance(tame, wild, iTame, iWild, iLast, iStar);
        iTame, iWild := iTame + 1, iWild + 1;
        continue;
      } else if Get(wild, iWild) == Some(ASTERISK) {
        ghost var first := iWild;
        iWild := PastStars(wild, iWild);
        AfterStars(tame, wild, iTame, first, iWild, iLast, iStar);
        if Get(wild, iWild) == None {
          assert From(tame, |tame|, wild, iWild);
          return true;
        }
        iStar := iWild;
      } else {
        if Get(tame, iTame) == Get(wild, iWild) {
          Advance(tame, wild, iTame, iWild, iLast, iStar);
          iTame, iWild := iTame + 1, iWild + 1;
          continue;
        }
        Mismatch(tame, wild, iTame, iWild, iLast, iStar);
        if iStar == 0 {
          return false;
        }
        iWild := iStar;
        iTame := iLast + 1;
      }

      while Get(tame, iTame) != Get(wild, iWild) && Get(wild, iWild) != Some(QUESTION_MARK)
        invariant iTame < |tame| && iWild == iStar < |wild| && wild[iStar] != ASTERISK && iStar > 0
        invariant Wild(tame, wild) <==> FromSomewhere(tame, iTame, wild, iStar)
        decreases |tame| - iTame
      {
        FromUnfold(tame, iTame, wild, iStar);
        RestartLater(tame, iTame, wild, iStar);
        iTame := iTame + 1;
        if Get(tame, iTame) == None {
          TooShort(tame, iTame, wild, iStar, iStar + 1);
          return false;
        }
      }
      iLast := iTame;
      Advance(tame, wild, iTame, iWild, iLast, iStar);
      iTame, iWild := iTame + 1, iWild + 1;
    }

    ghost var stop := iWild;
    while Get(wild, iWild) == Some(ASTERISK)
      invariant stop <= iWild <= |wild|
      invariant forall m :: stop <= m < iWild ==> wild[m] == ASTERISK
      decreases |wild| - iWild
    {
      iWild := iWild + 1;
    }
    AtEndOfText(tame, wild, stop, iWild, iLast, iStar);
    r := Get(wild, iWild) == None;
  }

  /** Passing a run of stars moves the backtrack point behind it. */
  lemma AfterStars(t: seq<nat>, w: seq<nat>, iTame: nat, first: nat, iWild: nat, iLast: nat, iStar: nat)
    requires first < iWild <= |w|
    requires forall m :: first <= m < iWild ==> w[m] == ASTERISK
    requires Progress(t, w, iTame, first, iLast, iStar)
    ensures Wild(t, w) <==> FromSomewhere(t, iTame, w, iWild)
  {
    SkipStars(t, iTame, w, first + 1, iWild);
    if iStar == 0 {
      FromUnfold(t, iTame, w, first);
    } else {
      LeftmostSuffices(t, iLast, w, iStar, first);
    }
  }

  /** When the text is used up, only trailing stars may be left of the pattern. */
  lemma AtEndOfText(t: seq<nat>, w: seq<nat>, stop: nat, iWild: nat, iLast: nat, iStar: nat)
    requires stop <= iWild <= |w|
    requires forall m :: stop <= m < iWild ==> w[m] == ASTERISK
    requires iWild < |w| ==> w[iWild] != ASTERISK
    requires Progress(t, w, |t|, stop, iLast, iStar)
    ensures Wild(t, w) <==> iWild == |w|
  {
    FromUnfold(t, |t|, w, iWild);
    if stop < iWild {
      AfterStars(t, w, |t|, stop, iWild, iLast, iStar);
    } else if iStar > 0 {
      if stop < |w| {
        TooShort(t, iLast, w, iStar, stop + 1);
      } else {
        SegmentStep(t, iLast, w, iStar, stop);
      }
    }
  }
}
