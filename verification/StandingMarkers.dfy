/**
 Which decensor markers stand in a text, and what becomes of them when matches of a pattern are deleted. A rule is fair
 when each match is longer than what it takes to re-attach the markers in it and no deletion hides a marker it leaves
 in; deleting by fair rules always takes out more than the pass has to put back (scripts/cbz_core.py).
 */
module StandingMarkers {
  import opened Cleaning
  import HexRepair
  import Ordering

  predicate IsLetter(c: char) {
    'a' <= c <= 'z'
  }

  /** `c` matches the character `p` of a pattern, IGNORECASE. */
  predicate Matches(a: Alphabet, c: char, p: char) {
    if IsLetter(p) then a.unicode.fold(c) == a.unicode.fold(p) else c == p
  }

  predicate SameFold(a: Alphabet, c: char, d: char) {
    a.unicode.fold(c) == a.unicode.fold(d)
  }

  /** The Latin letters are different letters and word characters up to case, hex digits are word characters and not
      other letters, and punctuation is neither a word character nor a space. */
  ghost predicate Latin(a: Alphabet) {
    && SaneAlphabet(a)
    && (forall l, m {:trigger SameFold(a, l, m)} | IsLetter(l) && IsLetter(m) && SameFold(a, l, m) :: l == m)
    && (forall c, l {:trigger Matches(a, c, l)} | IsLetter(l) && Matches(a, c, l) :: a.isWord(c))
    && (forall c | c in {'.', '/', ':', '-'} + BRACKETS :: !a.isWord(c) && !a.unicode.isSpace(c))
    && (forall c | HexRepair.IsHex(c) :: a.isWord(c) && NoHexLetter(a, c))
  }

  /** Not one of the four letters in the middle of a marker. */
  predicate NoHexLetter(a: Alphabet, c: char) {
    !Matches(a, c, 'n') && !Matches(a, c, 's') && !Matches(a, c, 'o') && !Matches(a, c, 'r')
  }

  // ------------------------------------------------------------ deleting matches

  /** The length of the match at a text, given whether a word character stands before it. */
  type Rule = (string, bool) -> nat

  /** `sub("", s)` */
  function Strip(a: Alphabet, rule: Rule, s: string, inWord: bool): string {
    if s == "" then "" else
    var n := rule(s, inWord);
    if 0 < n <= |s| then Strip(a, rule, s[n..], a.isWord(s[n - 1]))
    else [s[0]] + Strip(a, rule, s[1..], a.isWord(s[0]))
  }

  // ------------------------------------------------------------ which markers stand in a text

  /** A marker of `kind` stands in `s`. */
  predicate Seen(a: Alphabet, s: string, inWord: bool, kind: string) {
    s != "" && ((!inWord && KindStarts(a, s, kind)) || Seen(a, s[1..], a.isWord(s[0]), kind))
  }

  predicate KindStarts(a: Alphabet, s: string, kind: string) {
    MarkerStarts(a, s) && Folded(a, s[..MARKER_LENGTH]) == kind
  }

  lemma {:induction false} SeenLater(a: Alphabet, s: string, inWord: bool, n: nat, kind: string)
    requires 0 < n <= |s| && Seen(a, s[n..], a.isWord(s[n - 1]), kind)
    ensures Seen(a, s, inWord, kind)
    decreases n
  {
    if n > 1 {
      assert s[1..][n - 1..] == s[n..];
      SeenLater(a, s[1..], a.isWord(s[0]), n - 1, kind);
    }
  }

  lemma {:induction false} FoundIsSeen(a: Alphabet, s: string, inWord: bool, kind: string)
    requires SaneAlphabet(a) && kind in Kinds(a, Markers(a, s, inWord))
    ensures Seen(a, s, inWord, kind)
    decreases |s|
  {
    var w :| w in Markers(a, s, inWord) && Folded(a, w) == kind;
    if !inWord && MarkerStarts(a, s) {
      if w != s[..MARKER_LENGTH] {
        MarkerStartIsWord(a, s);
        FoundIsSeen(a, s[MARKER_LENGTH..], true, kind);
        SeenLater(a, s, inWord, MARKER_LENGTH, kind);
      }
    } else {
      FoundIsSeen(a, s[1..], a.isWord(s[0]), kind);
    }
  }

  lemma StartStands(a: Alphabet, s: string, kind: string) returns (w: string, q: string)
    requires KindStarts(a, s, kind)
    ensures s == w + q && Stands(a, "", w, q) && Folded(a, w) == kind
  {
    w, q := s[..MARKER_LENGTH], s[MARKER_LENGTH..];
  }

  lemma {:induction false} SeenStands(a: Alphabet, s: string, inWord: bool, kind: string)
    returns (p: string, w: string, q: string)
    requires Seen(a, s, inWord, kind)
    ensures s == p + w + q && Stands(a, p, w, q) && Folded(a, w) == kind && (p == "" ==> !inWord)
    decreases |s|
  {
    hide KindStarts, IsMarker;
    if !inWord && KindStarts(a, s, kind) {
      w, q := StartStands(a, s, kind);
      p := "";
      assert "" + w + q == s;
    } else {
      var p': string;
      p', w, q := SeenStands(a, s[1..], a.isWord(s[0]), kind);
      p := [s[0]] + p';
      assert s == [s[0]] + s[1..] == p + w + q;
      assert p[|p| - 1] == if p' == "" then s[0] else p'[|p'| - 1];
    }
  }

  lemma SeenIsFound(a: Alphabet, s: string, kind: string)
    requires SaneAlphabet(a)
    ensures Seen(a, s, false, kind) <==> kind in Kinds(a, Markers(a, s, false))
  {
    if Seen(a, s, false, kind) {
      var p, w, q := SeenStands(a, s, false, kind);
      StandingIsFound(a, p, w, q, false);
    }
    if kind in Kinds(a, Markers(a, s, false)) {
      FoundIsSeen(a, s, false, kind);
    }
  }

  // ------------------------------------------------------------ cutting a text in two

  /** No marker stands across position `n`. */
  ghost predicate NoneAcross(a: Alphabet, s: string, n: nat) {
    forall i | 0 <= i < n < i + MARKER_LENGTH && i + MARKER_LENGTH <= |s| :: !MarkerStarts(a, s[i..])
  }

  lemma {:induction false} SeenInParts(a: Alphabet, s: string, inWord: bool, n: nat, kind: string)
    requires 0 < n <= |s| && NoneAcross(a, s, n) && Seen(a, s, inWord, kind)
    ensures Seen(a, s[..n], inWord, kind) || Seen(a, s[n..], a.isWord(s[n - 1]), kind)
    decreases n
  {
    if !inWord && KindStarts(a, s, kind) {
      assert s[0..] == s;
      assert s[..n][..MARKER_LENGTH] == s[..MARKER_LENGTH];
    } else if n > 1 {
      var rest := s[1..];
      forall i | 0 <= i < n - 1 < i + MARKER_LENGTH && i + MARKER_LENGTH <= |rest| ensures !MarkerStarts(a, rest[i..]) {
        assert rest[i..] == s[i + 1..];
      }
      SeenInParts(a, rest, a.isWord(s[0]), n - 1, kind);
      assert rest[..n - 1] == s[..n][1..] && rest[n - 1..] == s[n..];
    }
  }

  /** A word boundary, or the end, is not inside a marker. */
  lemma BoundaryParts(a: Alphabet, s: string, n: nat)
    requires SaneAlphabet(a) && 0 < n <= |s| && (n == |s| || !a.isWord(s[n]) || !a.isWord(s[n - 1]))
    ensures NoneAcross(a, s, n)
  {
    forall i | 0 <= i < n < i + MARKER_LENGTH && i + MARKER_LENGTH <= |s| ensures !MarkerStarts(a, s[i..]) {
      MarkerStartIsWord(a, s[i..]);
      assert s[i..][n - i] == s[n] && s[i..][n - 1 - i] == s[n - 1];
    }
  }

  /** Inside a word nothing stands. */
  lemma {:induction false} SkipWord(a: Alphabet, s: string, k: nat, kind: string)
    requires k <= |s| && (forall i | 0 <= i < k :: a.isWord(s[i])) && Seen(a, s, true, kind)
    ensures Seen(a, s[k..], true, kind)
    decreases k
  {
    if k == 0 {
      assert s[0..] == s;
    } else {
      SkipWord(a, s[1..], k - 1, kind);
      assert s[1..][k - 1..] == s[k..];
    }
  }

  lemma {:induction false} SkipNonWord(a: Alphabet, s: string, inWord: bool, k: nat, kind: string)
    requires SaneAlphabet(a) && k <= |s| && (forall i | 0 <= i < k :: !a.isWord(s[i])) && Seen(a, s, inWord, kind)
    ensures |s| >= k + MARKER_LENGTH
    decreases |s|
  {
    if k == 0 {
      SeenLength(a, s, inWord, kind);
    } else {
      MarkerStartIsWord(a, s);
      SkipNonWord(a, s[1..], a.isWord(s[0]), k - 1, kind);
    }
  }

  lemma StartExtends(a: Alphabet, x: string, y: string, kind: string)
    requires SaneAlphabet(a) && x != "" && !a.isWord(x[|x| - 1]) && KindStarts(a, x, kind)
    ensures KindStarts(a, x + y, kind)
  {
    MarkerStartIsWord(a, x);
    assert (x + y)[..MARKER_LENGTH] == x[..MARKER_LENGTH];
  }

  lemma {:induction false} SeenExtends(a: Alphabet, x: string, y: string, inWord: bool, kind: string)
    requires SaneAlphabet(a) && x != "" && !a.isWord(x[|x| - 1]) && Seen(a, x, inWord, kind)
    ensures Seen(a, x + y, inWord, kind)
    decreases |x|
  {
    hide KindStarts, SaneAlphabet;
    if !inWord && KindStarts(a, x, kind) {
      StartExtends(a, x, y, kind);
    } else {
      assert (x + y)[1..] == x[1..] + y;
      SeenExtends(a, x[1..], y, a.isWord(x[0]), kind);
    }
  }

  // ------------------------------------------------------------ room for the kinds

  /** How many of the two kinds stand in `s`. */
  function KindCount(a: Alphabet, s: string, inWord: bool): nat {
    (if Seen(a, s, inWord, Folded(a, UNCENSORED)) then 1 else 0)
    + (if Seen(a, s, inWord, Folded(a, DECENSORED)) then 1 else 0)
  }

  lemma {:induction false} SeenLength(a: Alphabet, s: string, inWord: bool, kind: string)
    requires Seen(a, s, inWord, kind)
    ensures |s| >= MARKER_LENGTH
  {
    if !(!inWord && MarkerStarts(a, s)) {
      SeenLength(a, s[1..], a.isWord(s[0]), kind);
    }
  }

  lemma AfterMarker(a: Alphabet, s: string, kind: string)
    requires SaneAlphabet(a) && MarkerStarts(a, s) && Seen(a, s[1..], a.isWord(s[0]), kind)
    ensures |s| > 2 * MARKER_LENGTH
  {
    MarkerStartIsWord(a, s);
    SkipWord(a, s[1..], MARKER_LENGTH - 1, kind);
    var rest := s[MARKER_LENGTH..];
    assert s[1..][MARKER_LENGTH - 1..] == rest;
    SeenLength(a, rest[1..], a.isWord(rest[0]), kind);
  }

  lemma {:induction false} TwoKindsLength(a: Alphabet, s: string, inWord: bool, k: string, l: string)
    requires SaneAlphabet(a) && k != l && Seen(a, s, inWord, k) && Seen(a, s, inWord, l)
    ensures |s| > 2 * MARKER_LENGTH
  {
    if !inWord && MarkerStarts(a, s) {
      AfterMarker(a, s, if Folded(a, s[..MARKER_LENGTH]) == k then l else k);
    } else {
      TwoKindsLength(a, s[1..], a.isWord(s[0]), k, l);
    }
  }

  lemma KindsDiffer(a: Alphabet)
    requires Latin(a)
    ensures Folded(a, UNCENSORED) != Folded(a, DECENSORED)
  {
    assert Folded(a, UNCENSORED)[0] == a.unicode.fold('u') && Folded(a, DECENSORED)[0] == a.unicode.fold('d');
    assert !SameFold(a, 'u', 'd');
  }

  lemma Room(a: Alphabet, s: string, inWord: bool)
    requires Latin(a)
    ensures (MARKER_LENGTH + 1) * KindCount(a, s, inWord) <= |s| + 1
  {
    var u, d := Folded(a, UNCENSORED), Folded(a, DECENSORED);
    KindsDiffer(a);
    if Seen(a, s, inWord, u) {
      SeenLength(a, s, inWord, u);
      if Seen(a, s, inWord, d) {
        TwoKindsLength(a, s, inWord, u, d);
      }
    } else if Seen(a, s, inWord, d) {
      SeenLength(a, s, inWord, d);
    }
  }

  lemma CountInParts(a: Alphabet, s: string, inWord: bool, n: nat)
    requires 0 < n <= |s| && NoneAcross(a, s, n)
    ensures KindCount(a, s, inWord) <= KindCount(a, s[..n], inWord) + KindCount(a, s[n..], a.isWord(s[n - 1]))
  {
    var u, d := Folded(a, UNCENSORED), Folded(a, DECENSORED);
    if Seen(a, s, inWord, u) {
      SeenInParts(a, s, inWord, n, u);
    }
    if Seen(a, s, inWord, d) {
      SeenInParts(a, s, inWord, n, d);
    }
  }

  /** Text that is too short holds none. */
  lemma ShortHasNone(a: Alphabet, s: string, inWord: bool)
    requires |s| < MARKER_LENGTH
    ensures KindCount(a, s, inWord) == 0
  {
    forall kind | Seen(a, s, inWord, kind) ensures false {
      SeenLength(a, s, inWord, kind);
    }
  }

  lemma RoomBeforeNonWord(a: Alphabet, s: string, inWord: bool)
    requires Latin(a) && s != "" && !a.isWord(s[|s| - 1])
    ensures (MARKER_LENGTH + 1) * KindCount(a, s, inWord) <= |s|
  {
    var n := |s| - 1;
    if n == 0 {
      ShortHasNone(a, s, inWord);
    } else {
      BoundaryParts(a, s, n);
      CountInParts(a, s, inWord, n);
      ShortHasNone(a, s[n..], a.isWord(s[n - 1]));
      Room(a, s[..n], inWord);
    }
  }

  lemma RoomAfterNonWord(a: Alphabet, s: string, inWord: bool)
    requires Latin(a) && s != "" && !a.isWord(s[0])
    ensures (MARKER_LENGTH + 1) * KindCount(a, s, inWord) <= |s|
  {
    MarkerStartIsWord(a, s);
    Room(a, s[1..], false);
  }

  // ------------------------------------------------------------ what a fair rule keeps

  /** No marker stands across the end of a match, what is left after it does not start a word that stood, the match
      is longer than its markers need, and no match starts within or right after a marker that is not matched itself. */
  ghost predicate FairAt(a: Alphabet, rule: Rule, s: string, inWord: bool) {
    var n := rule(s, inWord);
    && n <= |s|
    && (n > 0 ==> CleanEnd(a, s, n))
    && (n > 0 ==> EachStaysWhole(a, s, inWord, n))
    && (n > 0 ==> (MARKER_LENGTH + 1) * KindCount(a, s[..n], inWord) < n)
    && (n == 0 && !inWord && MarkerStarts(a, s) ==> Spares(a, rule, s))
  }

  /** After the match comes the end, no word character, or the rest of a word. */
  predicate CleanEnd(a: Alphabet, s: string, n: nat)
    requires 0 < n <= |s|
  {
    n == |s| || !a.isWord(s[n]) || a.isWord(s[n - 1])
  }

  ghost predicate EachStaysWhole(a: Alphabet, s: string, inWord: bool, n: nat)
    requires 0 < n <= |s|
  {
    forall kind | Seen(a, s, inWord, kind) :: Seen(a, s[..n], inWord, kind) || Seen(a, s[n..], a.isWord(s[n - 1]), kind)
  }

  /** No match starts after the first character of the marker up to its end. */
  ghost predicate Spares(a: Alphabet, rule: Rule, s: string)
    requires |s| >= MARKER_LENGTH
  {
    forall i | 0 < i <= MARKER_LENGTH :: rule(s[i..], true) == 0
  }

  ghost predicate Fair(a: Alphabet, rule: Rule) {
    forall s: string, inWord {:trigger rule(s, inWord)} :: FairAt(a, rule, s, inWord)
  }

  /** A marker of `kind` stands in some match. */
  ghost predicate Eaten(a: Alphabet, rule: Rule, s: string, inWord: bool, kind: string) {
    s != "" &&
    var n := rule(s, inWord);
    if 0 < n <= |s| then Seen(a, s[..n], inWord, kind) || Eaten(a, rule, s[n..], a.isWord(s[n - 1]), kind)
    else Eaten(a, rule, s[1..], a.isWord(s[0]), kind)
  }

  lemma {:induction false} StripShrinks(a: Alphabet, rule: Rule, s: string, inWord: bool)
    ensures Shrinks(Strip(a, rule, s, inWord), s)
    decreases |s|
  {
    if s != "" {
      var n := rule(s, inWord);
      if 0 < n <= |s| {
        StripShrinks(a, rule, s[n..], a.isWord(s[n - 1]));
      } else {
        StripShrinks(a, rule, s[1..], a.isWord(s[0]));
      }
    }
  }

  lemma StripStep(a: Alphabet, rule: Rule, s: string, inWord: bool)
    requires s != "" && rule(s, inWord) == 0
    ensures Strip(a, rule, s, inWord) == [s[0]] + Strip(a, rule, s[1..], a.isWord(s[0]))
  {
  }

  /** What no match starts in is copied. */
  lemma {:induction false} StripCopies(a: Alphabet, rule: Rule, s: string, inWord: bool, k: nat)
    requires 0 < k <= |s| && rule(s, inWord) == 0
    requires (forall i | 0 <= i < k - 1 :: a.isWord(s[i])) && forall i | 0 < i < k :: rule(s[i..], true) == 0
    ensures Strip(a, rule, s, inWord) == s[..k] + Strip(a, rule, s[k..], a.isWord(s[k - 1]))
    decreases k
  {
    hide Strip;
    if k == 1 {
      StripStep(a, rule, s, inWord);
      assert s[..1] == [s[0]];
    } else {
      StripCopies(a, rule, s, inWord, k - 1);
      var rest := s[k - 1..];
      StripStep(a, rule, rest, true);
      assert rest[1..] == s[k..] && s[..k - 1] + [rest[0]] == s[..k];
    }
  }

  /** A marker that no match touches stands in the result. */
  lemma SparedMarkerStands(a: Alphabet, rule: Rule, s: string, kind: string)
    requires SaneAlphabet(a) && rule(s, false) == 0 && MarkerStarts(a, s) && Spares(a, rule, s)
    requires Folded(a, s[..MARKER_LENGTH]) == kind
    ensures Seen(a, Strip(a, rule, s, false), false, kind)
  {
    MarkerStartIsWord(a, s);
    StripCopies(a, rule, s, false, MARKER_LENGTH);
    var rest := s[MARKER_LENGTH..];
    var kept := Strip(a, rule, rest, true);
    if rest != "" {
      assert kept == [rest[0]] + Strip(a, rule, rest[1..], a.isWord(rest[0]));
    }
    var t := s[..MARKER_LENGTH] + kept;
    assert t[..MARKER_LENGTH] == s[..MARKER_LENGTH];
    assert |t| > MARKER_LENGTH ==> t[MARKER_LENGTH] == kept[0];
  }

  lemma AtMatch(a: Alphabet, rule: Rule, s: string, inWord: bool, kind: string)
    requires s != "" && 0 < rule(s, inWord) <= |s|
    ensures var n := rule(s, inWord);
      && Strip(a, rule, s, inWord) == Strip(a, rule, s[n..], a.isWord(s[n - 1]))
      && Eaten(a, rule, s, inWord, kind) ==
        (Seen(a, s[..n], inWord, kind) || Eaten(a, rule, s[n..], a.isWord(s[n - 1]), kind))
  {
  }

  lemma AtNoMatch(a: Alphabet, rule: Rule, s: string, inWord: bool, out: bool, kind: string)
    requires s != "" && rule(s, inWord) == 0
    ensures Seen(a, Strip(a, rule, s[1..], a.isWord(s[0])), a.isWord(s[0]), kind) ==>
      Seen(a, Strip(a, rule, s, inWord), out, kind)
    ensures Eaten(a, rule, s, inWord, kind) == Eaten(a, rule, s[1..], a.isWord(s[0]), kind)
  {
    StripStep(a, rule, s, inWord);
    var rest := Strip(a, rule, s[1..], a.isWord(s[0]));
    assert ([s[0]] + rest)[1..] == rest;
  }

  /** The result has at least the word boundaries of the text: every kind that stood stands, or was in a match. */
  lemma {:induction false} SeenOrEaten(a: Alphabet, rule: Rule, s: string, inWord: bool, out: bool, kind: string)
    requires SaneAlphabet(a) && Fair(a, rule) && Seen(a, s, inWord, kind)
    requires a.isWord(s[0]) && !inWord ==> !out
    ensures Seen(a, Strip(a, rule, s, inWord), out, kind) || Eaten(a, rule, s, inWord, kind)
    decreases |s|
  {
    hide KindCount, Spares, IsMarker, SaneAlphabet, Strip, Eaten;
    var n := rule(s, inWord);
    assert FairAt(a, rule, s, inWord);
    if n > 0 {
      AtMatch(a, rule, s, inWord, kind);
      if !Seen(a, s[..n], inWord, kind) {
        SeenOrEaten(a, rule, s[n..], a.isWord(s[n - 1]), out, kind);
      }
    } else if !inWord && KindStarts(a, s, kind) {
      MarkerStartIsWord(a, s);
      SparedMarkerStands(a, rule, s, kind);
    } else {
      SeenOrEaten(a, rule, s[1..], a.isWord(s[0]), a.isWord(s[0]), kind);
      AtNoMatch(a, rule, s, inWord, out, kind);
    }
  }

  function EatenCount(eatenU: bool, eatenD: bool): nat {
    (if eatenU then 1 else 0) + (if eatenD then 1 else 0)
  }

  lemma EatenTogether(u: bool, d: bool, u': bool, d': bool)
    ensures EatenCount(u || u', d || d') <= EatenCount(u, d) + EatenCount(u', d')
  {
  }

  /** The matches are longer than the markers in them need. */
  lemma {:induction false} EatenIsRepaid(a: Alphabet, rule: Rule, s: string, inWord: bool, u: string, d: string)
    requires Fair(a, rule) && u == Folded(a, UNCENSORED) && d == Folded(a, DECENSORED)
    ensures var t := Strip(a, rule, s, inWord);
      var m := EatenCount(Eaten(a, rule, s, inWord, u), Eaten(a, rule, s, inWord, d));
      |t| <= |s| && (m > 0 ==> (MARKER_LENGTH + 1) * m < |s| - |t|)
    decreases |s|
  {
    hide CleanEnd, EachStaysWhole, Spares, MarkerStarts, Seen;
    if s != "" {
      var n := rule(s, inWord);
      assert FairAt(a, rule, s, inWord);
      if n > 0 {
        EatenIsRepaid(a, rule, s[n..], a.isWord(s[n - 1]), u, d);
        EatenTogether(Seen(a, s[..n], inWord, u), Seen(a, s[..n], inWord, d),
          Eaten(a, rule, s[n..], a.isWord(s[n - 1]), u), Eaten(a, rule, s[n..], a.isWord(s[n - 1]), d));
      } else {
        EatenIsRepaid(a, rule, s[1..], a.isWord(s[0]), u, d);
      }
    }
  }

  // ------------------------------------------------------------ what a deletion costs

  predicate Loses(a: Alphabet, s: string, t: string, kind: string) {
    Seen(a, s, false, kind) && !Seen(a, t, false, kind)
  }

  /** How many kinds stand in `s` and not in `t`. */
  function LossCount(a: Alphabet, s: string, t: string): nat {
    EatenCount(Loses(a, s, t, Folded(a, UNCENSORED)), Loses(a, s, t, Folded(a, DECENSORED)))
  }

  /** More is taken out than it takes to re-attach every kind that is lost. */
  predicate Pays(a: Alphabet, s: string, t: string) {
    |t| <= |s| && (LossCount(a, s, t) > 0 ==> (MARKER_LENGTH + 1) * LossCount(a, s, t) < |s| - |t|)
  }

  lemma PaysInTurn(a: Alphabet, s: string, t: string, v: string)
    requires Pays(a, s, t) && Pays(a, t, v)
    ensures Pays(a, s, v)
  {
  }

  lemma StripPays(a: Alphabet, rule: Rule, s: string)
    requires SaneAlphabet(a) && Fair(a, rule)
    ensures Pays(a, s, Strip(a, rule, s, false))
  {
    EatenIsRepaid(a, rule, s, false, Folded(a, UNCENSORED), Folded(a, DECENSORED));
    StripLoses(a, rule, s, Folded(a, UNCENSORED));
    StripLoses(a, rule, s, Folded(a, DECENSORED));
  }

  lemma StripLoses(a: Alphabet, rule: Rule, s: string, kind: string)
    requires SaneAlphabet(a) && Fair(a, rule)
    ensures Loses(a, s, Strip(a, rule, s, false), kind) ==> Eaten(a, rule, s, false, kind)
  {
    if Seen(a, s, false, kind) {
      SeenOrEaten(a, rule, s, false, false, kind);
    }
  }

  /** The kinds that the pass would re-attach are among the lost ones. */
  lemma PaysIsRepaid(a: Alphabet, s: string, t: string)
    requires SaneAlphabet(a) && Pays(a, s, t)
    ensures Repaid(a, s, t)
  {
    var u, d := Folded(a, UNCENSORED), Folded(a, DECENSORED);
    var lost := LostKinds(a, s, t);
    BracketsNeedRoom(a, s);
    forall kind | kind in lost ensures Loses(a, s, t, kind) && kind in {u, d} {
      var w :| w in AllMarkers(a, Brackets(s)) && Folded(a, w) == kind;
      BracketedShows(a, "", s, w);
      assert "" + s == s;
      ShowsIsFound(a, s, kind);
      SeenIsFound(a, s, kind);
      SeenIsFound(a, t, kind);
    }
    var bound := (if Loses(a, s, t, u) then {u} else {}) + (if Loses(a, s, t, d) then {d} else {});
    Ordering.SubsetSize(lost, bound);
    assert |bound| <= LossCount(a, s, t);
  }

  lemma {:induction false} StripNothing(a: Alphabet, rule: Rule, s: string, inWord: bool)
    requires forall i, f {:trigger rule(s[i..], f)} | 0 <= i <= |s| :: rule(s[i..], f) == 0
    ensures Strip(a, rule, s, inWord) == s
    decreases |s|
  {
    if s != "" {
      assert s[0..] == s;
      assert rule(s[0..], inWord) == 0;
      forall i, f | 0 <= i <= |s| - 1 ensures rule(s[1..][i..], f) == 0 {
        assert s[1..][i..] == s[i + 1..];
        assert rule(s[i + 1..], f) == 0;
      }
      StripNothing(a, rule, s[1..], a.isWord(s[0]));
    }
  }

  lemma NothingPays(a: Alphabet, s: string)
    ensures Pays(a, s, s)
  {
  }

  // ------------------------------------------------------------ cutting off the end

  /** Cutting off nonword characters and then fewer than ten others, at a boundary, loses nothing. */
  lemma CutLosesNothing(a: Alphabet, s: string, c: nat, k: nat)
    requires SaneAlphabet(a) && c <= k <= |s| && |s| < k + MARKER_LENGTH
    requires forall i | c <= i < k :: !a.isWord(s[i])
    requires c == k && c < |s| ==> c == 0 || !a.isWord(s[c - 1])
    ensures Pays(a, s, s[..c])
  {
    CutKeeps(a, s, c, k, Folded(a, UNCENSORED));
    CutKeeps(a, s, c, k, Folded(a, DECENSORED));
  }

  lemma CutKeeps(a: Alphabet, s: string, c: nat, k: nat, kind: string)
    requires SaneAlphabet(a) && c <= k <= |s| && |s| < k + MARKER_LENGTH
    requires forall i | c <= i < k :: !a.isWord(s[i])
    requires c == k && c < |s| ==> c == 0 || !a.isWord(s[c - 1])
    ensures !Loses(a, s, s[..c], kind)
  {
    if Seen(a, s, false, kind) {
      if c == 0 {
        SkipNonWord(a, s, false, k, kind);
      } else {
        BoundaryParts(a, s, c);
        SeenInParts(a, s, false, c, kind);
        if Seen(a, s[c..], a.isWord(s[c - 1]), kind) {
          SkipNonWord(a, s[c..], a.isWord(s[c - 1]), k - c, kind);
        }
      }
    }
  }
}
