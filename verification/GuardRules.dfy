/**
 Which series names the guard refuses, said of the name itself: those that end in something a reader takes for a token
 (`_TRAILING_TOKEN_RE` in scripts/cbz_canonical_name.py).
 */
module GuardRules {
  import opened CanonicalTokens
  import opened SeriesText

  predicate Letter(u: Unicode, s: string, i: nat, c: char) {
    i < |s| && u.fold(s[i]) == u.fold(c)
  }

  /** From `k` to the end there is a digit and then digits, dots and hyphens. */
  predicate NumberFrom(u: Unicode, s: string, k: nat) {
    k < |s| && u.isDigit(s[k]) && forall j | k < j < |s| :: u.isDigit(s[j]) || s[j] == '.' || s[j] == '-'
  }

  /** From `i` to the end there is `w`, up to case. */
  predicate Reads(u: Unicode, s: string, i: nat, w: string) {
    |s| == i + |w| && forall k | 0 <= k < |w| :: u.fold(s[i + k]) == u.fold(w[k])
  }

  predicate WordStart(u: Unicode, s: string, i: nat) {
    i == 0 || (i <= |s| && u.isSpace(s[i - 1]))
  }

  /** `ch` or `ch.` up to `d`, spaces up to `k`, and a number. */
  predicate ChapterAt(u: Unicode, s: string, i: nat, d: nat, k: nat) {
    && Letter(u, s, i, 'c') && Letter(u, s, i + 1, 'h')
    && (d == i + 2 || (d == i + 3 <= |s| && s[i + 2] == '.'))
    && d <= k && NumberFrom(u, s, k) && forall j | d <= j < k :: u.isSpace(s[j])
  }

  predicate DigitsBetween(u: Unicode, s: string, i: nat, k: nat) {
    i < k <= |s| && forall j | i <= j < k :: u.isDigit(s[j])
  }

  /** A volume, chapter or special word that starts a word, or an issue, year, version or edition, from `i` to the end. */
  ghost predicate TokenAt(u: Unicode, ws: Words, s: string, i: nat) {
    || (WordStart(u, s, i) && (
          || (Letter(u, s, i, 'v') && NumberFrom(u, s, i + 1))
          || (exists d: nat, k: nat :: ChapterAt(u, s, i, d, k))
          || (exists w | w in ws.specials :: Reads(u, s, i, w))))
    || (i < |s| && s[i] == '#' && NumberFrom(u, s, i + 1))
    || (|s| == i + 6 && s[i] == '(' && DigitsBetween(u, s, i + 1, i + 5) && s[i + 5] == ')')
    || (|s| >= i + 4 && s[i] == '[' && Letter(u, s, i + 1, 'v') && DigitsBetween(u, s, i + 2, |s| - 1) && s[|s| - 1] == ']')
    || Reads(u, s, i, "(TPB)") || (exists w | w in ws.editions :: Reads(u, s, i, "(" + w + ")"))
  }

  lemma NumberIs(u: Unicode, s: string, k: nat)
    requires k <= |s|
    ensures NumberLike(u, s[k..]) <==> NumberFrom(u, s, k)
  {
    var t := s[k..];
    assert forall j | 0 <= j < |t| :: t[j] == s[k + j];
    if NumberLike(u, t) {
      forall j | k < j < |s| ensures u.isDigit(s[j]) || s[j] == '.' || s[j] == '-' {
        assert t[j - k] == s[j];
      }
    }
  }

  lemma ReadsIs(u: Unicode, s: string, i: nat, w: string)
    requires i <= |s|
    ensures SameFolded(u, s[i..], w) <==> Reads(u, s, i, w)
  {
  }

  /** Spaces go up to the number, if there is one behind them. */
  lemma {:induction false} SpacesThenNumber(u: Unicode, s: string, d: nat)
    requires d <= |s| && forall c | u.isDigit(c) :: !u.isSpace(c)
    ensures NumberLike(u, StripLeft(u, s[d..])) <==>
      exists k: nat :: d <= k && NumberFrom(u, s, k) && forall j | d <= j < k :: u.isSpace(s[j])
    decreases |s| - d
  {
    if d < |s| && u.isSpace(s[d]) {
      assert s[d..][1..] == s[d + 1..];
      SpacesThenNumber(u, s, d + 1);
      assert !NumberFrom(u, s, d);
    } else {
      NumberIs(u, s, d);
    }
  }

  lemma ChapterIs(u: Unicode, s: string, i: nat)
    requires i <= |s| && forall c | u.isDigit(c) :: !u.isSpace(c)
    ensures ChapterLike(u, s[i..]) <==> exists d: nat, k: nat :: ChapterAt(u, s, i, d, k)
  {
    hide NumberLike;
    var t := s[i..];
    if |t| >= 2 {
      assert t[0] == s[i] && t[1] == s[i + 1] && t[2..] == s[i + 2..];
      SpacesThenNumber(u, s, i + 2);
      if k: nat :| i + 2 <= k && NumberFrom(u, s, k) && forall j | i + 2 <= j < k :: u.isSpace(s[j]) {
        assert Letter(u, s, i, 'c') && Letter(u, s, i + 1, 'h') ==> ChapterAt(u, s, i, i + 2, k);
      }
    }
    if |t| > 2 {
      assert t[2] == s[i + 2] && t[3..] == s[i + 3..];
      SpacesThenNumber(u, s, i + 3);
      if k: nat :| i + 3 <= k && NumberFrom(u, s, k) && forall j | i + 3 <= j < k :: u.isSpace(s[j]) {
        assert Letter(u, s, i, 'c') && Letter(u, s, i + 1, 'h') && s[i + 2] == '.' ==> ChapterAt(u, s, i, i + 3, k);
      }
    }
  }

  lemma DigitsAre(u: Unicode, s: string, i: nat, k: nat)
    requires i <= k <= |s|
    ensures AllDigits(u, s[i..k]) <==> DigitsBetween(u, s, i, k)
  {
    var t := s[i..k];
    assert forall j | 0 <= j < |t| :: t[j] == s[i + j];
    if AllDigits(u, t) {
      forall j | i <= j < k ensures u.isDigit(s[j]) {
        assert t[j - i] == s[j];
      }
    }
  }

  lemma NumbersAt(u: Unicode, s: string, i: nat)
    requires i <= |s|
    ensures VolumeLike(u, s[i..]) <==> Letter(u, s, i, 'v') && NumberFrom(u, s, i + 1)
    ensures IssueLike(u, s[i..]) <==> i < |s| && s[i] == '#' && NumberFrom(u, s, i + 1)
  {
    if i < |s| {
      assert s[i..][1..] == s[i + 1..];
      NumberIs(u, s, i + 1);
    }
  }

  lemma YearAndVersionAt(u: Unicode, s: string, i: nat)
    requires i <= |s|
    ensures YearLike(u, s[i..]) <==> |s| == i + 6 && s[i] == '(' && DigitsBetween(u, s, i + 1, i + 5) && s[i + 5] == ')'
    ensures VersionLike(u, s[i..]) <==>
      |s| >= i + 4 && s[i] == '[' && Letter(u, s, i + 1, 'v') && DigitsBetween(u, s, i + 2, |s| - 1) && s[|s| - 1] == ']'
  {
    var t := s[i..];
    if |t| == 6 {
      assert t[1..5] == s[i + 1..i + 5];
      DigitsAre(u, s, i + 1, i + 5);
    }
    if |t| >= 4 {
      assert t[2..|t| - 1] == s[i + 2..|s| - 1] && t[1] == s[i + 1];
      DigitsAre(u, s, i + 2, |s| - 1);
    }
  }

  lemma WordsAt(u: Unicode, ws: Words, s: string, i: nat)
    requires i <= |s|
    ensures SpecialLike(u, ws, s[i..]) <==> exists w | w in ws.specials :: Reads(u, s, i, w)
    ensures EditionLike(u, ws, s[i..]) <==>
      Reads(u, s, i, "(TPB)") || exists w | w in ws.editions :: Reads(u, s, i, "(" + w + ")")
  {
    hide SameFolded, Reads;
    forall w: string ensures SameFolded(u, s[i..], w) <==> Reads(u, s, i, w) {
      ReadsIs(u, s, i, w);
    }
  }

  /** The guard refuses exactly the names that end in a token. */
  lemma GuardExactly(u: Unicode, ws: Words, s: string)
    requires forall c | u.isDigit(c) :: !u.isSpace(c)
    ensures EndsInToken(u, ws, s) <==> exists i: nat :: i <= |s| && TokenAt(u, ws, s, i)
  {
    forall i: nat | i <= |s| ensures TokenSuffix(u, ws, s, i) <==> TokenAt(u, ws, s, i) {
      SuffixExactly(u, ws, s, i);
    }
  }

  lemma SuffixExactly(u: Unicode, ws: Words, s: string, i: nat)
    requires i <= |s| && forall c | u.isDigit(c) :: !u.isSpace(c)
    ensures TokenSuffix(u, ws, s, i) <==> TokenAt(u, ws, s, i)
  {
    hide VolumeLike, ChapterLike, SpecialLike, IssueLike, YearLike, VersionLike, EditionLike, Letter, NumberFrom, ChapterAt,
      Reads, DigitsBetween;
    NumbersAt(u, s, i);
    ChapterIs(u, s, i);
    YearAndVersionAt(u, s, i);
    WordsAt(u, ws, s, i);
  }
}
