/**
 Cleaning a name to a fixpoint: bracket removal, spacing, and keeping the decensor markers that stood in brackets
 (scripts/cbz_core.py). The deleting rules are a parameter here. The repeated pass reaches a fixpoint within its bound when
 the brackets rule is on, or when what they delete is longer than the markers that are lost with it.
 */
module Cleaning {
  import opened Outcomes
  import opened CanonicalNumbers
  import opened SeriesText
  import Ordering

  const BRACKETS := {'[', ']', '(', ')'}
  const UNCENSORED := "uncensored"
  const DECENSORED := "decensored"
  const MARKER_LENGTH := 10

  datatype Alphabet = Alphabet(unicode: Unicode, isWord: char -> bool)

  predicate WindowsForbidden(c: char) {
    c in {'<', '>', ':', '"', '/', '\\', '|', '?', '*'}
  }

  /** `c` is a letter of a marker up to case. */
  predicate MarkerLetter(a: Alphabet, c: char) {
    exists m | m in UNCENSORED + DECENSORED :: a.unicode.fold(c) == a.unicode.fold(m)
  }

  /** Spaces and brackets are no word characters, and letters are what they look like. */
  ghost predicate SaneAlphabet(a: Alphabet) {
    && a.unicode.isSpace(' ')
    && (forall c | a.unicode.isSpace(c) || c in BRACKETS :: !a.isWord(c))
    && forall c {:trigger MarkerLetter(a, c)} | MarkerLetter(a, c) :: a.isWord(c) && c != '_' && !WindowsForbidden(c)
  }

  /** Which rules are on; `delete` are the rules before the brackets, which only shorten (module DeletingRules has them as
      they are). */
  datatype Rules = Rules(brackets: bool, windowsSafe: bool, delete: string -> string)

  /** `t` is `s`, or a shorter text over the characters of `s`. */
  ghost predicate Shrinks(t: string, s: string) {
    && |t| <= |s| && (|t| == |s| ==> t == s)
    && forall i | 0 <= i < |t| :: t[i] in s
  }

  /** `t` is `s` or shorter. */
  ghost predicate Shortens(t: string, s: string) {
    |t| <= |s| && (|t| == |s| ==> t == s)
  }

  ghost predicate DeletesOnly(r: Rules) {
    forall s: string :: Shortens(r.delete(s), s)
  }

  ghost predicate DeletesNothing(r: Rules) {
    forall s: string :: r.delete(s) == s
  }

  // ------------------------------------------------------------ brackets

  /** The length of the bracketed text at the start of `s`, or 0. */
  function BracketLength(s: string): (n: nat)
    ensures n <= |s| && (n > 0 ==> n >= 2 && s[0] in BRACKETS && s[n - 1] in BRACKETS)
  {
    if s == "" || s[0] !in {'[', '('} then 0 else
    var k := IndexOf(s[1..], if s[0] == '[' then ']' else ')');
    if k == |s| - 1 then 0 else k + 2
  }

  /** `_BRACKET_RE.finditer` */
  function Brackets(s: string): seq<string> {
    if s == "" then [] else
    var n := BracketLength(s);
    if n > 0 then [s[..n]] + Brackets(s[n..]) else Brackets(s[1..])
  }

  /** `_BRACKET_RE.sub("", s)` */
  function RemoveBrackets(s: string): string {
    if s == "" then "" else
    var n := BracketLength(s);
    if n > 0 then RemoveBrackets(s[n..]) else [s[0]] + RemoveBrackets(s[1..])
  }

  /** `_STRAY_RE.sub("", s)` */
  function RemoveStrays(s: string): string {
    if s == "" then ""
    else if s[0] in BRACKETS then RemoveStrays(s[1..])
    else [s[0]] + RemoveStrays(s[1..])
  }

  function TotalLength(parts: seq<string>): nat {
    if parts == [] then 0 else |parts[0]| + TotalLength(parts[1..])
  }

  // ------------------------------------------------------------ markers

  /** The text up to case. */
  function Folded(a: Alphabet, s: string): (f: string)
    ensures |f| == |s| && forall i | 0 <= i < |s| :: f[i] == a.unicode.fold(s[i])
  {
    seq(|s|, i requires 0 <= i < |s| => a.unicode.fold(s[i]))
  }

  predicate IsMarker(a: Alphabet, w: string) {
    |w| == MARKER_LENGTH && (Folded(a, w) == Folded(a, UNCENSORED) || Folded(a, w) == Folded(a, DECENSORED))
  }

  /** A marker starts `s` and no word character follows it. */
  predicate MarkerStarts(a: Alphabet, s: string) {
    && |s| >= MARKER_LENGTH && IsMarker(a, s[..MARKER_LENGTH])
    && (|s| > MARKER_LENGTH ==> !a.isWord(s[MARKER_LENGTH]))
  }

  /** `_DECENSOR_MARKER_RE.finditer`; `inWord` says that a word character stands before `s`. */
  function Markers(a: Alphabet, s: string, inWord: bool): seq<string> {
    if s == "" then []
    else if !inWord && MarkerStarts(a, s) then [s[..MARKER_LENGTH]] + Markers(a, s[MARKER_LENGTH..], true)
    else Markers(a, s[1..], a.isWord(s[0]))
  }

  function AllMarkers(a: Alphabet, parts: seq<string>): seq<string> {
    if parts == [] then [] else Markers(a, parts[0], false) + AllMarkers(a, parts[1..])
  }

  function Kinds(a: Alphabet, words: seq<string>): set<string> {
    set w | w in words :: Folded(a, w)
  }

  /** The words not seen before, each kind once. */
  function Missing(a: Alphabet, words: seq<string>, seen: set<string>): seq<string> {
    if words == [] then []
    else if Folded(a, words[0]) in seen then Missing(a, words[1..], seen)
    else [words[0]] + Missing(a, words[1..], seen + {Folded(a, words[0])})
  }

  // ------------------------------------------------------------ spacing

  /** `_SPACES_RE.sub(" ", s)`; `after` says that a space stands before `s`. */
  function Squeeze(s: string, after: bool): string {
    if s == "" then ""
    else if s[0] == ' ' then (if after then "" else " ") + Squeeze(s[1..], true)
    else [s[0]] + Squeeze(s[1..], false)
  }

  /** `_collapse_spaces` */
  function CollapseSpaces(a: Alphabet, s: string): string {
    StripRight(a.unicode, StripLeft(a.unicode, Squeeze(s, false)))
  }

  /** Each character that is `bad` becomes a space. */
  function Blank(s: string, bad: char -> bool): (t: string)
    ensures |t| == |s| && forall i | 0 <= i < |s| :: t[i] == if bad(s[i]) then ' ' else s[i]
  {
    seq(|s|, i requires 0 <= i < |s| => if bad(s[i]) then ' ' else s[i])
  }

  // ------------------------------------------------------------ the pass

  function Unbracket(r: Rules, s: string): string {
    if r.brackets then RemoveStrays(RemoveBrackets(s)) else s
  }

  function WindowsSafe(a: Alphabet, r: Rules, s: string): string {
    if r.windowsSafe then CollapseSpaces(a, Blank(s, c => WindowsForbidden(c))) else s
  }

  /** `_sanitize_core` */
  function Core(a: Alphabet, r: Rules, text: string): string {
    CollapseSpaces(a, WindowsSafe(a, r, Blank(Unbracket(r, r.delete(text)), c => c == '_')))
  }

  /** `" ".join((cleaned, *words))` */
  function JoinWords(cleaned: string, words: seq<string>): string
    decreases |words|
  {
    if words == [] then cleaned else JoinWords(cleaned + " " + words[0], words[1..])
  }

  function Preserve(a: Alphabet, source: string, cleaned: string): string {
    var missing := Missing(a, AllMarkers(a, Brackets(source)), Kinds(a, Markers(a, cleaned, false)));
    if missing == [] then cleaned else CollapseSpaces(a, JoinWords(cleaned, missing))
  }

  /** `_sanitize_pass` */
  function Pass(a: Alphabet, r: Rules, text: string): string {
    Preserve(a, text, Core(a, r, text))
  }

  lemma AllMarkersSplit(a: Alphabet, parts: seq<string>, i: nat)
    requires i < |parts|
    ensures AllMarkers(a, parts[i..]) == Markers(a, parts[i], false) + AllMarkers(a, parts[i + 1..])
  {
  }

  lemma MissingNext(a: Alphabet, word: string, more: seq<string>, seen: set<string>)
    ensures Missing(a, [word] + more, seen) ==
      if Folded(a, word) in seen then Missing(a, more, seen) else [word] + Missing(a, more, seen + {Folded(a, word)})
  {
    assert ([word] + more)[1..] == more;
  }

  lemma NothingMore(a: Alphabet, seen: set<string>)
    ensures AllMarkers(a, []) == [] && Missing(a, [], seen) == []
  {
  }

  /** `preserve_decensor_markers`, bracket by bracket and marker by marker. */
  method PreserveDecensorMarkers(a: Alphabet, source: string, cleaned: string) returns (r: string)
    ensures r == Preserve(a, source, cleaned)
  {
    hide Missing, AllMarkers, Markers, Brackets, Kinds, CollapseSpaces, JoinWords;
    var seen := Kinds(a, Markers(a, cleaned, false));
    var missing: seq<string> := [];
    var brackets := Brackets(source);
    ghost var all := Missing(a, AllMarkers(a, brackets), seen);
    assert brackets[0..] == brackets;
    for i := 0 to |brackets|
      invariant missing + Missing(a, AllMarkers(a, brackets[i..]), seen) == all
    {
      AllMarkersSplit(a, brackets, i);
      var words := Markers(a, brackets[i], false);
      ghost var rest := AllMarkers(a, brackets[i + 1..]);
      assert words[0..] == words;
      for j := 0 to |words|
        invariant missing + Missing(a, words[j..] + rest, seen) == all
      {
        assert words[j..] + rest == [words[j]] + (words[j + 1..] + rest);
        MissingNext(a, words[j], words[j + 1..] + rest, seen);
        if Folded(a, words[j]) !in seen {
          missing := missing + [words[j]];
          seen := seen + {Folded(a, words[j])};
        }
      }
      assert words[|words|..] + rest == rest;
    }
    assert brackets[|brackets|..] == [] && missing + [] == missing;
    NothingMore(a, seen);
    r := if missing == [] then cleaned else CollapseSpaces(a, JoinWords(cleaned, missing));
  }

  // ------------------------------------------------------------ spacing only takes out

  ghost predicate Tidied(a: Alphabet, s: string) {
    && (forall i | 0 < i < |s| :: !(s[i - 1] == ' ' && s[i] == ' '))
    && (s != "" ==> !a.unicode.isSpace(s[0]) && !a.unicode.isSpace(s[|s| - 1]))
  }

  lemma ShrinksTransitive(t: string, s: string, r: string)
    requires Shrinks(t, s) && Shrinks(s, r)
    ensures Shrinks(t, r)
  {
  }

  ghost predicate NoDouble(s: string) {
    forall i | 0 < i < |s| :: !(s[i - 1] == ' ' && s[i] == ' ')
  }

  lemma {:induction false} SqueezeShrinks(s: string, after: bool)
    ensures Shrinks(Squeeze(s, after), s) && NoDouble(Squeeze(s, after))
    ensures after && Squeeze(s, after) != "" ==> Squeeze(s, after)[0] != ' '
  {
    if s != "" {
      SqueezeShrinks(s[1..], s[0] == ' ');
    }
  }

  lemma {:induction false} StripLeftShrinks(u: Unicode, s: string)
    requires NoDouble(s)
    ensures Shrinks(StripLeft(u, s), s) && NoDouble(StripLeft(u, s))
    ensures StripLeft(u, s) != "" ==> !u.isSpace(StripLeft(u, s)[0])
  {
    if s != "" && u.isSpace(s[0]) {
      StripLeftShrinks(u, s[1..]);
    }
  }

  lemma {:induction false} StripRightShrinks(u: Unicode, s: string)
    requires NoDouble(s) && (s != "" ==> !u.isSpace(s[0]))
    ensures var t := StripRight(u, s);
      && Shrinks(t, s) && NoDouble(t)
      && (t != "" ==> !u.isSpace(t[0]) && !u.isSpace(t[|t| - 1]))
  {
    if s != "" && u.isSpace(s[|s| - 1]) {
      StripRightShrinks(u, s[..|s| - 1]);
    }
  }

  lemma CollapseTidies(a: Alphabet, s: string)
    ensures Shrinks(CollapseSpaces(a, s), s) && Tidied(a, CollapseSpaces(a, s))
  {
    var q := Squeeze(s, false);
    SqueezeShrinks(s, false);
    StripLeftShrinks(a.unicode, q);
    StripRightShrinks(a.unicode, StripLeft(a.unicode, q));
    ShrinksTransitive(StripLeft(a.unicode, q), q, s);
    ShrinksTransitive(CollapseSpaces(a, s), StripLeft(a.unicode, q), s);
  }

  lemma {:induction false} SqueezeOfNoDouble(s: string, after: bool)
    requires NoDouble(s) && (after && s != "" ==> s[0] != ' ')
    ensures Squeeze(s, after) == s
  {
    if s != "" {
      SqueezeOfNoDouble(s[1..], s[0] == ' ');
    }
  }

  lemma CollapseOfTidied(a: Alphabet, s: string)
    requires Tidied(a, s)
    ensures CollapseSpaces(a, s) == s
  {
    SqueezeOfNoDouble(s, false);
  }

  // ------------------------------------------------------------ bracket removal takes out whole brackets

  lemma TotalOfMore(part: string, more: seq<string>)
    ensures TotalLength([part] + more) == |part| + TotalLength(more)
  {
    assert ([part] + more)[1..] == more;
  }

  lemma {:induction false} RemoveBracketsLength(s: string)
    ensures |RemoveBrackets(s)| + TotalLength(Brackets(s)) == |s|
    ensures Shrinks(RemoveBrackets(s), s)
  {
    if s != "" {
      var n := BracketLength(s);
      if n > 0 {
        RemoveBracketsLength(s[n..]);
        TotalOfMore(s[..n], Brackets(s[n..]));
      } else {
        RemoveBracketsLength(s[1..]);
      }
    }
  }

  lemma {:induction false} RemoveStraysRemoves(s: string)
    ensures Shrinks(RemoveStrays(s), s)
    ensures forall i | 0 <= i < |RemoveStrays(s)| :: RemoveStrays(s)[i] !in BRACKETS
    ensures (forall i | 0 <= i < |s| :: s[i] !in BRACKETS) ==> RemoveStrays(s) == s
  {
    if s != "" {
      RemoveStraysRemoves(s[1..]);
    }
  }

  lemma {:induction false} NoBrackets(s: string)
    requires forall i | 0 <= i < |s| :: s[i] !in BRACKETS
    ensures Brackets(s) == [] && RemoveBrackets(s) == s
  {
    if s != "" {
      NoBrackets(s[1..]);
    }
  }

  lemma UnbracketShrinks(r: Rules, s: string)
    ensures Shrinks(Unbracket(r, s), s)
    ensures r.brackets ==> |Unbracket(r, s)| + TotalLength(Brackets(s)) <= |s|
    ensures r.brackets ==> forall i | 0 <= i < |Unbracket(r, s)| :: Unbracket(r, s)[i] !in BRACKETS
    ensures (forall i | 0 <= i < |s| :: s[i] !in BRACKETS) ==> Unbracket(r, s) == s
  {
    RemoveBracketsLength(s);
    RemoveStraysRemoves(RemoveBrackets(s));
    ShrinksTransitive(RemoveStrays(RemoveBrackets(s)), RemoveBrackets(s), s);
    if forall i | 0 <= i < |s| :: s[i] !in BRACKETS {
      NoBrackets(s);
    }
  }

  // ------------------------------------------------------------ markers need room

  lemma MarkerChars(a: Alphabet, w: string)
    requires IsMarker(a, w)
    ensures forall i | 0 <= i < |w| :: MarkerLetter(a, w[i])
  {
  }

  lemma MarkerStartIsWord(a: Alphabet, s: string)
    requires SaneAlphabet(a)
    ensures MarkerStarts(a, s) ==> forall i | 0 <= i < MARKER_LENGTH :: a.isWord(s[i])
  {
    if MarkerStarts(a, s) {
      var w := s[..MARKER_LENGTH];
      MarkerChars(a, w);
      forall i | 0 <= i < MARKER_LENGTH ensures a.isWord(s[i]) {
        assert w[i] == s[i];
      }
    }
  }

  /** Every marker takes its ten characters and one more that parts it from the next. */
  lemma {:induction false} MarkersNeedRoom(a: Alphabet, s: string, inWord: bool)
    requires SaneAlphabet(a)
    requires s != "" && !a.isWord(s[|s| - 1])
    ensures (MARKER_LENGTH + 1) * |Markers(a, s, inWord)| <= |s| - (if inWord then 1 else 0)
    ensures forall w | w in Markers(a, s, inWord) :: IsMarker(a, w)
    decreases |s|
  {
    MarkerStartIsWord(a, s);
    if !inWord && MarkerStarts(a, s) {
      MarkersNeedRoom(a, s[MARKER_LENGTH..], true);
    } else if |s| > 1 {
      MarkersNeedRoom(a, s[1..], a.isWord(s[0]));
    }
  }

  lemma {:induction false} BracketsNeedRoom(a: Alphabet, s: string)
    requires SaneAlphabet(a)
    ensures var words := AllMarkers(a, Brackets(s));
      && (MARKER_LENGTH + 1) * |words| + |Brackets(s)| <= TotalLength(Brackets(s))
      && forall w | w in words :: IsMarker(a, w)
    decreases |s|
  {
    if s != "" {
      var n := BracketLength(s);
      if n > 0 {
        var b := s[..n];
        var rest := Brackets(s[n..]);
        assert Brackets(s) == [b] + rest && ([b] + rest)[1..] == rest;
        BracketsNeedRoom(a, s[n..]);
        BracketNeedsRoom(a, b);
      } else {
        BracketsNeedRoom(a, s[1..]);
      }
    }
  }

  lemma BracketNeedsRoom(a: Alphabet, b: string)
    requires SaneAlphabet(a) && |b| >= 2 && b[0] in BRACKETS && b[|b| - 1] in BRACKETS
    ensures (MARKER_LENGTH + 1) * |Markers(a, b, false)| + 1 <= |b|
    ensures forall w | w in Markers(a, b, false) :: IsMarker(a, w)
  {
    MarkerStartIsWord(a, b);
    MarkersNeedRoom(a, b[1..], a.isWord(b[0]));
  }

  lemma {:induction false} MissingAreWords(a: Alphabet, words: seq<string>, seen: set<string>)
    ensures |Missing(a, words, seen)| <= |words|
    ensures forall w | w in Missing(a, words, seen) :: w in words
    ensures forall w | w in words :: Folded(a, w) in seen || Folded(a, w) in Kinds(a, Missing(a, words, seen))
  {
    if words != [] {
      var kind := Folded(a, words[0]);
      if kind in seen {
        MissingAreWords(a, words[1..], seen);
      } else {
        MissingAreWords(a, words[1..], seen + {kind});
        var m := Missing(a, words, seen);
        assert words[0] in m && forall w | w in m[1..] :: w in m;
      }
      forall w | w in words ensures Folded(a, w) in seen || Folded(a, w) in Kinds(a, Missing(a, words, seen)) {
        assert w == words[0] || w in words[1..];
      }
    }
  }

  lemma {:induction false} JoinLength(cleaned: string, words: seq<string>)
    requires forall w | w in words :: |w| == MARKER_LENGTH
    ensures |JoinWords(cleaned, words)| == |cleaned| + (MARKER_LENGTH + 1) * |words|
    decreases |words|
  {
    if words != [] {
      JoinLength(cleaned + " " + words[0], words[1..]);
    }
  }

  /** What one pass adds fits into the brackets of its source. */
  lemma PassLength(a: Alphabet, r: Rules, text: string)
    requires SaneAlphabet(a)
    ensures Pass(a, r, text) == Core(a, r, text)
      || (Brackets(text) != [] && |Pass(a, r, text)| < |Core(a, r, text)| + TotalLength(Brackets(text)))
  {
    var cleaned := Core(a, r, text);
    var words := AllMarkers(a, Brackets(text));
    var seen := Kinds(a, Markers(a, cleaned, false));
    var missing := Missing(a, words, seen);
    BracketsNeedRoom(a, text);
    MissingAreWords(a, words, seen);
    if missing != [] {
      JoinLength(cleaned, missing);
      CollapseTidies(a, JoinWords(cleaned, missing));
    }
  }

  // ------------------------------------------------------------ markers stay visible

  /** A marker of `kind` between word boundaries. */
  ghost predicate Shows(a: Alphabet, s: string, kind: string) {
    exists p, w, q :: s == p + w + q && Stands(a, p, w, q) && Folded(a, w) == kind
  }

  ghost predicate Stands(a: Alphabet, p: string, w: string, q: string) {
    IsMarker(a, w) && (p != "" ==> !a.isWord(p[|p| - 1])) && (q != "" ==> !a.isWord(q[0]))
  }

  lemma {:induction false} FoundShows(a: Alphabet, before: string, s: string, w: string)
    requires SaneAlphabet(a) && w in Markers(a, s, before != "" && a.isWord(before[|before| - 1]))
    ensures Shows(a, before + s, Folded(a, w))
    decreases |s|
  {
    var inWord := before != "" && a.isWord(before[|before| - 1]);
    if !inWord && MarkerStarts(a, s) {
      var head, tail := s[..MARKER_LENGTH], s[MARKER_LENGTH..];
      assert before + s == before + head + tail;
      if w == head {
        assert Stands(a, before, head, tail);
      } else {
        MarkerStartIsWord(a, s);
        FoundShows(a, before + head, tail, w);
      }
    } else {
      assert before + s == before + [s[0]] + s[1..];
      FoundShows(a, before + [s[0]], s[1..], w);
    }
  }

  lemma StandingKeepsApart(a: Alphabet, p: string, w: string, q: string)
    requires SaneAlphabet(a) && Stands(a, p, w, q) && p != ""
    ensures MarkerStarts(a, p + w + q) ==> |p| > MARKER_LENGTH
  {
    var s := p + w + q;
    MarkerStartIsWord(a, s);
    assert s[|p| - 1] == p[|p| - 1];
  }

  lemma StandsAtStart(a: Alphabet, w: string, q: string)
    requires Stands(a, "", w, q)
    ensures MarkerStarts(a, w + q) && (w + q)[..MARKER_LENGTH] == w
  {
    assert (w + q)[..MARKER_LENGTH] == w;
    assert q != "" ==> (w + q)[MARKER_LENGTH] == q[0];
  }

  /** A marker that stands in the text is found. */
  lemma {:induction false} StandingIsFound(a: Alphabet, p: string, w: string, q: string, inWord: bool)
    requires SaneAlphabet(a) && Stands(a, p, w, q) && (p == "" ==> !inWord)
    ensures w in Markers(a, p + w + q, inWord)
    decreases |p|
  {
    hide IsMarker, SaneAlphabet;
    var s := p + w + q;
    if p == "" {
      StandsAtStart(a, w, q);
      assert s == w + q;
      assert Markers(a, s, inWord)[0] == w;
    } else if !inWord && MarkerStarts(a, s) {
      StandingKeepsApart(a, p, w, q);
      var p' := p[MARKER_LENGTH..];
      assert s[MARKER_LENGTH..] == p' + w + q;
      StandingIsFound(a, p', w, q, true);
    } else {
      assert s[0] == p[0] && s[1..] == p[1..] + w + q;
      StandingIsFound(a, p[1..], w, q, a.isWord(s[0]));
    }
  }

  lemma ShowsIsFound(a: Alphabet, s: string, kind: string)
    requires SaneAlphabet(a)
    ensures Shows(a, s, kind) <==> kind in Kinds(a, Markers(a, s, false))
  {
    if Shows(a, s, kind) {
      var p, w, q :| s == p + w + q && Stands(a, p, w, q) && Folded(a, w) == kind;
      StandingIsFound(a, p, w, q, false);
    }
    if kind in Kinds(a, Markers(a, s, false)) {
      var w :| w in Markers(a, s, false) && Folded(a, w) == kind;
      FoundShows(a, "", s, w);
      assert "" + s == s;
    }
  }

  lemma BracketsPast(a: Alphabet, s: string, w: string)
    requires s != "" && w in AllMarkers(a, Brackets(s))
    ensures var n := BracketLength(s);
      if n == 0 then w in AllMarkers(a, Brackets(s[1..]))
      else w in Markers(a, s[..n], false) || w in AllMarkers(a, Brackets(s[n..]))
  {
    var n := BracketLength(s);
    if n > 0 {
      assert Brackets(s) == [s[..n]] + Brackets(s[n..]);
      assert Brackets(s)[1..] == Brackets(s[n..]);
    }
  }

  /** A marker inside a bracket stands in the whole text, before the end of the bracket. */
  lemma {:induction false} BracketedStands(a: Alphabet, before: string, s: string, w: string)
    returns (p: string, v: string, q: string)
    requires SaneAlphabet(a) && w in AllMarkers(a, Brackets(s))
    ensures before + s == p + v + q && Stands(a, p, v, q) && Folded(a, v) == Folded(a, w)
    ensures exists i | 0 <= i < |q| :: q[i] in BRACKETS
    decreases |s|
  {
    hide SaneAlphabet, Stands;
    assert s != "";
    BracketsPast(a, s, w);
    var n := BracketLength(s);
    if n == 0 {
      assert before + s == before + [s[0]] + s[1..];
      p, v, q := BracketedStands(a, before + [s[0]], s[1..], w);
    } else {
      var b, rest := s[..n], s[n..];
      assert before + s == before + b + rest;
      if w in Markers(a, b, false) {
        p, v, q := FoundInBracket(a, before, b, rest, w);
      } else {
        p, v, q := BracketedStands(a, before + b, rest, w);
      }
    }
  }

  lemma FoundInBracket(a: Alphabet, before: string, b: string, rest: string, w: string)
    returns (p: string, v: string, q: string)
    requires SaneAlphabet(a) && |b| >= 2 && b[0] in BRACKETS && b[|b| - 1] in BRACKETS && w in Markers(a, b, false)
    ensures before + b + rest == p + v + q && Stands(a, p, v, q) && Folded(a, v) == Folded(a, w)
    ensures exists i | 0 <= i < |q| :: q[i] in BRACKETS
  {
    hide SaneAlphabet, Stands;
    FoundShows(a, "", b, w);
    assert "" + b == b;
    var x, u, y :| b == x + u + y && Stands(a, x, u, y) && Folded(a, u) == Folded(a, w);
    p, v, q := InBracketInText(a, before, b, rest, x, u, y);
  }

  /** A marker in a bracket is away from both of its ends. */
  lemma AwayFromEnds(a: Alphabet, x: string, w: string, y: string)
    requires SaneAlphabet(a) && IsMarker(a, w) && |x + w + y| >= 2
    requires (x + w + y)[0] in BRACKETS && (x + w + y)[|x + w + y| - 1] in BRACKETS
    ensures x != "" && y != "" && y[|y| - 1] == (x + w + y)[|x + w + y| - 1]
  {
    MarkerChars(a, w);
    assert MarkerLetter(a, w[0]) && MarkerLetter(a, w[|w| - 1]);
    assert (x + w + y)[|x|] == w[0] && (x + w + y)[|x| + |w| - 1] == w[|w| - 1];
  }

  lemma InBracketInText(a: Alphabet, before: string, b: string, rest: string, x: string, w: string, y: string)
    returns (p: string, v: string, q: string)
    requires SaneAlphabet(a) && |b| >= 2 && b[0] in BRACKETS && b[|b| - 1] in BRACKETS
    requires b == x + w + y && Stands(a, x, w, y)
    ensures before + b + rest == p + v + q && Stands(a, p, v, q) && v == w
    ensures exists i | 0 <= i < |q| :: q[i] in BRACKETS
  {
    AwayFromEnds(a, x, w, y);
    p, v, q := before + x, w, y + rest;
    assert q[|y| - 1] in BRACKETS;
  }

  lemma BracketedShows(a: Alphabet, before: string, s: string, w: string)
    requires SaneAlphabet(a) && w in AllMarkers(a, Brackets(s))
    ensures Shows(a, before + s, Folded(a, w))
  {
    var p, v, q := BracketedStands(a, before, s, w);
  }

  // ------------------------------------------------------------ spacing keeps markers

  lemma {:induction false} SqueezeAppend(x: string, y: string, after: bool)
    ensures Squeeze(x + y, after) == Squeeze(x, after) + Squeeze(y, if x == "" then after else x[|x| - 1] == ' ')
  {
    hide Squeeze;
    if x == "" {
      NothingSqueezed(after);
      assert x + y == y && "" + Squeeze(y, after) == Squeeze(y, after);
    } else {
      var head, space := if x[0] != ' ' then [x[0]] else if after then "" else " ", x[0] == ' ';
      assert (x + y)[1..] == x[1..] + y && (x + y)[0] == x[0];
      SqueezeFirst(x, after);
      SqueezeFirst(x + y, after);
      SqueezeAppend(x[1..], y, space);
      var last := if x[1..] == "" then space else x[1..][|x| - 2] == ' ';
      var a, b := Squeeze(x[1..], space), Squeeze(y, last);
      assert (head + a) + b == head + (a + b);
    }
  }

  lemma NothingSqueezed(after: bool)
    ensures Squeeze("", after) == ""
  {
  }

  lemma SqueezeFirst(s: string, after: bool)
    requires s != ""
    ensures Squeeze(s, after)
      == (if s[0] != ' ' then [s[0]] else if after then "" else " ") + Squeeze(s[1..], s[0] == ' ')
  {
  }

  lemma {:induction false} SqueezeLast(s: string, after: bool)
    requires s != ""
    ensures Squeeze(s, after) == "" ==> s[|s| - 1] == ' '
    ensures Squeeze(s, after) != "" ==> Squeeze(s, after)[|Squeeze(s, after)| - 1] == s[|s| - 1]
  {
    if |s| > 1 {
      SqueezeLast(s[1..], s[0] == ' ');
    }
  }

  lemma {:induction false} StripLeftAppend(u: Unicode, x: string, y: string)
    requires y != "" && !u.isSpace(y[0])
    ensures StripLeft(u, x + y) == StripLeft(u, x) + y
    ensures StripLeft(u, x) != "" ==> StripLeft(u, x)[|StripLeft(u, x)| - 1] == x[|x| - 1]
  {
    if x == "" {
      assert x + y == y;
    } else {
      assert (x + y)[1..] == x[1..] + y;
      if u.isSpace(x[0]) {
        StripLeftAppend(u, x[1..], y);
      }
    }
  }

  lemma {:induction false} StripRightAppend(u: Unicode, x: string, y: string)
    requires x != "" && !u.isSpace(x[|x| - 1])
    ensures StripRight(u, x + y) == x + StripRight(u, y)
    ensures StripRight(u, y) <= y
  {
    if y == "" {
      assert x + y == x;
    } else {
      assert (x + y)[..|x + y| - 1] == x + y[..|y| - 1];
      if u.isSpace(y[|y| - 1]) {
        StripRightAppend(u, x, y[..|y| - 1]);
      }
    }
  }

  lemma TrimText(u: Unicode, p: string, w: string, q: string)
    requires w != "" && !u.isSpace(w[0]) && !u.isSpace(w[|w| - 1])
    ensures StripRight(u, StripLeft(u, p + w + q)) == StripLeft(u, p) + w + StripRight(u, q)
    ensures StripLeft(u, p) != "" ==> StripLeft(u, p)[|StripLeft(u, p)| - 1] == p[|p| - 1]
    ensures StripRight(u, q) <= q
  {
    var l := StripLeft(u, p);
    assert (w + q)[0] == w[0] && (l + w)[|l + w| - 1] == w[|w| - 1];
    StripLeftAppend(u, p, w + q);
    assert p + w + q == p + (w + q) && l + (w + q) == l + w + q;
    StripRightAppend(u, l + w, q);
  }

  lemma CollapseShows(a: Alphabet, s: string, kind: string)
    requires SaneAlphabet(a) && Shows(a, s, kind)
    ensures Shows(a, CollapseSpaces(a, s), kind)
  {
    hide IsMarker, MarkerLetter;
    var p, w, q :| s == p + w + q && Stands(a, p, w, q) && Folded(a, w) == kind;
    MarkerChars(a, w);
    MarkerNotEmpty(a, w);
    assert MarkerLetter(a, w[0]) && MarkerLetter(a, w[|w| - 1]);
    var p1 := SqueezedBefore(a, p, w, q);
    TrimText(a.unicode, p1, w, Squeeze(q, false));
    StandingShows(a, StripLeft(a.unicode, p1), w, StripRight(a.unicode, Squeeze(q, false)));
  }

  lemma MarkerNotEmpty(a: Alphabet, w: string)
    requires IsMarker(a, w)
    ensures |w| == MARKER_LENGTH
  {
  }

  lemma SqueezedBefore(a: Alphabet, p: string, w: string, q: string) returns (p1: string)
    requires SaneAlphabet(a) && Stands(a, p, w, q) && forall i | 0 <= i < |w| :: MarkerLetter(a, w[i])
    ensures Squeeze(p + w + q, false) == p1 + w + Squeeze(q, false)
    ensures Stands(a, p1, w, Squeeze(q, false))
  {
    p1 := Squeeze(p, false);
    SqueezeAppend(p + w, q, false);
    SqueezeAppend(p, w, false);
    forall i | 0 <= i < |w| ensures w[i] != ' ' {
      assert a.isWord(w[i]);
    }
    SqueezeOfNoDouble(w, if p == "" then false else p[|p| - 1] == ' ');
    assert (p + w)[|p + w| - 1] == w[|w| - 1];
    if p != "" {
      SqueezeLast(p, false);
    }
  }

  lemma BlankAppend(x: string, y: string, bad: char -> bool)
    ensures Blank(x + y, bad) == Blank(x, bad) + Blank(y, bad)
  {
  }

  lemma BlankWord(w: string, bad: char -> bool)
    requires forall i | 0 <= i < |w| :: !bad(w[i])
    ensures Blank(w, bad) == w
  {
  }

  lemma BlankShows(a: Alphabet, s: string, bad: char -> bool, kind: string)
    requires SaneAlphabet(a) && Shows(a, s, kind)
    requires forall c | MarkerLetter(a, c) :: !bad(c)
    ensures Shows(a, Blank(s, bad), kind)
  {
    var p, w, q :| s == p + w + q && Stands(a, p, w, q) && Folded(a, w) == kind;
    MarkerChars(a, w);
    BlankWord(w, bad);
    BlankAppend(p + w, q, bad);
    BlankAppend(p, w, bad);
    BlankStands(a, p, w, q, bad);
  }

  lemma BlankStands(a: Alphabet, p: string, w: string, q: string, bad: char -> bool)
    requires !a.isWord(' ') && Stands(a, p, w, q)
    ensures Stands(a, Blank(p, bad), w, Blank(q, bad))
  {
  }

  lemma StandingShows(a: Alphabet, p: string, w: string, q: string)
    requires Stands(a, p, w, q)
    ensures Shows(a, p + w + q, Folded(a, w))
  {
  }

  /** What is appended after a gap hides nothing. */
  lemma ShowsLonger(a: Alphabet, s: string, x: string, kind: string)
    requires Shows(a, s, kind) && x != "" && !a.isWord(x[0])
    ensures Shows(a, s + x, kind)
  {
    hide IsMarker;
    var p, v, q :| s == p + v + q && Stands(a, p, v, q) && Folded(a, v) == kind;
    assert s + x == p + v + (q + x);
    assert (q + x)[0] == if q == "" then x[0] else q[0];
    StandingShows(a, p, v, q + x);
  }

  lemma LastShows(a: Alphabet, s: string, w: string)
    requires IsMarker(a, w) && (s != "" ==> !a.isWord(s[|s| - 1]))
    ensures Shows(a, s + w, Folded(a, w))
  {
    hide IsMarker;
    assert s + w == s + w + "";
    StandingShows(a, s, w, "");
  }

  lemma AppendedShows(a: Alphabet, s: string, w: string, kind: string)
    requires SaneAlphabet(a) && IsMarker(a, w) && (Shows(a, s, kind) || Folded(a, w) == kind)
    ensures Shows(a, s + " " + w, kind)
  {
    hide IsMarker, Shows;
    assert !a.isWord(' ');
    if Folded(a, w) == kind {
      LastShows(a, s + " ", w);
    } else {
      ShowsLonger(a, s, " " + w, kind);
      assert s + " " + w == s + (" " + w);
    }
  }

  lemma {:induction false} JoinShows(a: Alphabet, cleaned: string, words: seq<string>, kind: string)
    requires SaneAlphabet(a) && (forall w | w in words :: IsMarker(a, w))
    requires Shows(a, cleaned, kind) || kind in Kinds(a, words)
    ensures Shows(a, JoinWords(cleaned, words), kind)
    decreases |words|
  {
    if words != [] {
      if Shows(a, cleaned, kind) || Folded(a, words[0]) == kind {
        AppendedShows(a, cleaned, words[0], kind);
      } else {
        assert kind in Kinds(a, words[1..]);
      }
      JoinShows(a, cleaned + " " + words[0], words[1..], kind);
    }
  }

  /** Every marker that stood in a bracket of the source stands in the result of the pass. */
  lemma BracketedMarkersStayVisible(a: Alphabet, r: Rules, text: string, kind: string)
    requires SaneAlphabet(a) && kind in Kinds(a, AllMarkers(a, Brackets(text)))
    ensures Shows(a, Pass(a, r, text), kind)
  {
    var cleaned := Core(a, r, text);
    var words := AllMarkers(a, Brackets(text));
    var seen := Kinds(a, Markers(a, cleaned, false));
    var missing := Missing(a, words, seen);
    BracketsNeedRoom(a, text);
    MissingAreWords(a, words, seen);
    ShowsIsFound(a, cleaned, kind);
    if missing != [] {
      JoinShows(a, cleaned, missing, kind);
      CollapseShows(a, JoinWords(cleaned, missing), kind);
    }
  }

  // ------------------------------------------------------------ what a pass leaves

  /** A character no rule takes out. */
  predicate Allowed(r: Rules, c: char) {
    c != '_' && (r.windowsSafe ==> !WindowsForbidden(c)) && (r.brackets ==> c !in BRACKETS)
  }

  /** Nothing left for the character rules to do. */
  ghost predicate Settled(a: Alphabet, r: Rules, s: string) {
    Tidied(a, s) && forall i | 0 <= i < |s| :: Allowed(r, s[i])
  }

  lemma CoreSettles(a: Alphabet, r: Rules, text: string)
    ensures Settled(a, r, Core(a, r, text))
  {
    var b := Blank(Unbracket(r, r.delete(text)), c => c == '_');
    var w := WindowsSafe(a, r, b);
    BlankedChars(r, r.delete(text));
    CollapseTidies(a, Blank(b, c => WindowsForbidden(c)));
    assert forall i | 0 <= i < |w| :: Allowed(r, w[i]);
    CollapseTidies(a, w);
  }

  lemma BlankedChars(r: Rules, t: string)
    ensures var b := Blank(Unbracket(r, t), c => c == '_');
      forall i | 0 <= i < |b| :: b[i] != '_' && (r.brackets ==> b[i] !in BRACKETS)
  {
    UnbracketShrinks(r, t);
  }

  lemma {:induction false} JoinChars(a: Alphabet, cleaned: string, words: seq<string>)
    requires forall w | w in words :: IsMarker(a, w)
    ensures forall c | c in JoinWords(cleaned, words) :: c in cleaned || c == ' ' || MarkerLetter(a, c)
    decreases |words|
  {
    if words != [] {
      MarkerChars(a, words[0]);
      JoinChars(a, cleaned + " " + words[0], words[1..]);
    }
  }

  lemma PassSettles(a: Alphabet, r: Rules, text: string)
    requires SaneAlphabet(a)
    ensures Settled(a, r, Pass(a, r, text))
  {
    hide Core, Kinds, Markers, AllMarkers, Brackets, Missing;
    CoreSettles(a, r, text);
    var cleaned := Core(a, r, text);
    var words := AllMarkers(a, Brackets(text));
    var missing := Missing(a, words, Kinds(a, Markers(a, cleaned, false)));
    BracketsNeedRoom(a, text);
    MissingAreWords(a, words, Kinds(a, Markers(a, cleaned, false)));
    JoinChars(a, cleaned, missing);
    CollapseTidies(a, JoinWords(cleaned, missing));
  }

  // ------------------------------------------------------------ after the first pass texts only shrink

  /** The kinds of markers that stand in a bracket of `s` and do not stand in `t`. */
  function LostKinds(a: Alphabet, s: string, t: string): set<string> {
    Kinds(a, AllMarkers(a, Brackets(s))) - Kinds(a, Markers(a, t, false))
  }

  /** What is taken out of `s` is longer than what it takes to re-attach the markers that are lost with it. */
  predicate Repaid(a: Alphabet, s: string, t: string) {
    LostKinds(a, s, t) == {} || (MARKER_LENGTH + 1) * |LostKinds(a, s, t)| < |s| - |t|
  }

  /** Which rules the bound is shown for: when brackets go too, the deleting rules may delete anything. */
  ghost predicate Bounded(a: Alphabet, r: Rules) {
    DeletesOnly(r) && (r.brackets || forall s: string :: Repaid(a, s, r.delete(s)))
  }

  /** Nothing is lost when every marker that stands in a bracket still stands. */
  lemma NothingLost(a: Alphabet, s: string, t: string)
    requires SaneAlphabet(a) && forall w | w in AllMarkers(a, Brackets(s)) :: Shows(a, t, Folded(a, w))
    ensures LostKinds(a, s, t) == {}
  {
    forall w | w in AllMarkers(a, Brackets(s)) ensures Folded(a, w) in Kinds(a, Markers(a, t, false)) {
      ShowsIsFound(a, t, Folded(a, w));
    }
  }

  lemma DeletingNothingLosesNothing(a: Alphabet, text: string)
    requires SaneAlphabet(a)
    ensures LostKinds(a, text, text) == {}
  {
    forall w | w in AllMarkers(a, Brackets(text)) ensures Shows(a, text, Folded(a, w)) {
      BracketedShows(a, "", text, w);
      assert "" + text == text;
    }
    NothingLost(a, text, text);
  }

  /** Rules that delete nothing qualify. */
  lemma DeletingNothingIsBounded(a: Alphabet, r: Rules)
    requires SaneAlphabet(a) && DeletesNothing(r)
    ensures Bounded(a, r)
  {
    forall s: string ensures LostKinds(a, s, s) == {} {
      DeletingNothingLosesNothing(a, s);
    }
  }

  /** Rules that only cut something without brackets off the end, as for trailing slashes and G-codes, qualify. */
  lemma CuttingTheEndIsBounded(a: Alphabet, r: Rules)
    requires SaneAlphabet(a)
    requires forall s: string :: r.delete(s) <= s && forall i | |r.delete(s)| <= i < |s| :: s[i] !in BRACKETS
    ensures Bounded(a, r)
  {
    forall s: string ensures LostKinds(a, s, r.delete(s)) == {} {
      forall w | w in AllMarkers(a, Brackets(s)) ensures Shows(a, r.delete(s), Folded(a, w)) {
        CutEndShows(a, s, r.delete(s), w);
      }
      NothingLost(a, s, r.delete(s));
    }
  }

  lemma CutText(p: string, v: string, q: string, i: nat, t: string)
    requires t <= p + v + q && i < |q| && |t| > |p| + |v| + i
    ensures t == p + v + q[..|t| - |p| - |v|]
  {
  }

  lemma CutEndShows(a: Alphabet, s: string, t: string, w: string)
    requires SaneAlphabet(a) && w in AllMarkers(a, Brackets(s))
    requires t <= s && forall i | |t| <= i < |s| :: s[i] !in BRACKETS
    ensures Shows(a, t, Folded(a, w))
  {
    var p, v, q := BracketedStands(a, "", s, w);
    assert "" + s == s;
    CutStands(a, p, v, q, t, Folded(a, w));
  }

  lemma CutStands(a: Alphabet, p: string, v: string, q: string, t: string, kind: string)
    requires Stands(a, p, v, q) && Folded(a, v) == kind && exists i | 0 <= i < |q| :: q[i] in BRACKETS
    requires t <= p + v + q && forall i | |t| <= i < |p + v + q| :: (p + v + q)[i] !in BRACKETS
    ensures Shows(a, t, kind)
  {
    var i :| 0 <= i < |q| && q[i] in BRACKETS;
    assert (p + v + q)[|p| + |v| + i] == q[i];
    CutText(p, v, q, i, t);
    assert Stands(a, p, v, q[..|t| - |p| - |v|]);
  }

  lemma KindsOfMore(a: Alphabet, word: string, more: seq<string>)
    ensures Kinds(a, [word] + more) == {Folded(a, word)} + Kinds(a, more)
  {
  }

  /** The missing words are of different kinds, those that were not seen. */
  lemma {:induction false} MissingKinds(a: Alphabet, words: seq<string>, seen: set<string>)
    ensures Kinds(a, Missing(a, words, seen)) == Kinds(a, words) - seen
    ensures |Missing(a, words, seen)| == |Kinds(a, Missing(a, words, seen))|
    decreases |words|, 0
  {
    if words == [] {
      assert Kinds(a, []) == {};
    } else {
      OneMoreMissing(a, words[0], words[1..], seen);
      assert words == [words[0]] + words[1..];
    }
  }

  lemma {:induction false} OneMoreMissing(a: Alphabet, word: string, more: seq<string>, seen: set<string>)
    ensures var words := [word] + more;
      && Kinds(a, Missing(a, words, seen)) == Kinds(a, words) - seen
      && |Missing(a, words, seen)| == |Kinds(a, Missing(a, words, seen))|
    decreases |more|, 1
  {
    hide Missing, Kinds;
    var kind := Folded(a, word);
    MissingNext(a, word, more, seen);
    KindsOfMore(a, word, more);
    if kind in seen {
      MissingKinds(a, more, seen);
    } else {
      MissingKinds(a, more, seen + {kind});
      KindsOfMore(a, word, Missing(a, more, seen + {kind}));
    }
  }

  lemma CoreOfSettledShrinks(a: Alphabet, r: Rules, text: string)
    requires DeletesOnly(r) && Settled(a, r, text)
    ensures Shortens(Core(a, r, text), text)
    ensures DeletesNothing(r) ==> Core(a, r, text) == text
  {
    assert Shortens(r.delete(text), text);
    CoreLength(a, r, text);
    if r.delete(text) == text {
      SettledIsItsCore(a, r, text);
    }
  }

  /** A settled text that the rules leave alone is left alone by the pass, without its markers. */
  lemma SettledIsItsCore(a: Alphabet, r: Rules, text: string)
    requires Settled(a, r, text) && r.delete(text) == text
    ensures Core(a, r, text) == text
  {
    if r.brackets {
      UnbracketShrinks(r, text);
    }
    assert Blank(text, c => c == '_') == text;
    assert Blank(text, c => WindowsForbidden(c)) == text || !r.windowsSafe;
    CollapseOfTidied(a, text);
  }

  /** A pass over a settled text gives that text or a shorter one. */
  lemma PassOfSettledShrinks(a: Alphabet, r: Rules, text: string)
    requires SaneAlphabet(a) && Bounded(a, r) && Settled(a, r, text)
    ensures Pass(a, r, text) == text || |Pass(a, r, text)| < |text|
    ensures DeletesNothing(r) ==> Pass(a, r, text) == text
  {
    CoreOfSettledShrinks(a, r, text);
    if r.brackets {
      NoBrackets(text);
    } else {
      assert Repaid(a, text, r.delete(text));
      UnbracketedPass(a, r, text);
      CoreLength(a, r, text);
      if DeletesNothing(r) {
        DeletingNothingLosesNothing(a, text);
      }
    }
  }

  /** Without the brackets rule a pass re-attaches at most the kinds that the deleting rules lost. */
  lemma UnbracketedPass(a: Alphabet, r: Rules, text: string)
    requires SaneAlphabet(a) && !r.brackets
    ensures var lost := LostKinds(a, text, r.delete(text));
      && (lost == {} ==> Pass(a, r, text) == Core(a, r, text))
      && |Pass(a, r, text)| <= |Core(a, r, text)| + (MARKER_LENGTH + 1) * |lost|
  {
    var core := Core(a, r, text);
    var words := AllMarkers(a, Brackets(text));
    var seen := Kinds(a, Markers(a, core, false));
    var missing := Missing(a, words, seen);
    BracketsNeedRoom(a, text);
    MissingAreWords(a, words, seen);
    MissingKinds(a, words, seen);
    forall kind | kind in Kinds(a, Markers(a, r.delete(text), false)) ensures kind in seen {
      ShowsIsFound(a, r.delete(text), kind);
      UnbracketedMarkersStay(a, r, text, kind);
      ShowsIsFound(a, core, kind);
    }
    Ordering.SubsetSize(Kinds(a, missing), LostKinds(a, text, r.delete(text)));
    if missing != [] {
      JoinLength(core, missing);
      CollapseTidies(a, JoinWords(core, missing));
    }
  }

  lemma UnbracketedMarkersStay(a: Alphabet, r: Rules, text: string, kind: string)
    requires SaneAlphabet(a) && !r.brackets && Shows(a, r.delete(text), kind)
    ensures Shows(a, Core(a, r, text), kind)
  {
    var b := Blank(r.delete(text), c => c == '_');
    BlankShows(a, r.delete(text), c => c == '_', kind);
    if r.windowsSafe {
      BlankShows(a, b, c => WindowsForbidden(c), kind);
      CollapseShows(a, Blank(b, c => WindowsForbidden(c)), kind);
    }
    CollapseShows(a, WindowsSafe(a, r, b), kind);
  }

  /** The first pass at most doubles the length. */
  lemma FirstPassLength(a: Alphabet, r: Rules, text: string)
    requires SaneAlphabet(a) && Bounded(a, r)
    ensures |Pass(a, r, text)| <= 2 * |text|
  {
    PassLength(a, r, text);
    CoreLength(a, r, text);
    RemoveBracketsLength(text);
  }

  lemma CoreLength(a: Alphabet, r: Rules, text: string)
    requires DeletesOnly(r)
    ensures |Core(a, r, text)| <= |Unbracket(r, r.delete(text))| <= |r.delete(text)| <= |text|
  {
    var t := r.delete(text);
    assert Shortens(t, text);
    UnbracketShrinks(r, t);
    var b := Blank(Unbracket(r, t), c => c == '_');
    CollapseTidies(a, Blank(b, c => WindowsForbidden(c)));
    CollapseTidies(a, WindowsSafe(a, r, b));
  }

  // ------------------------------------------------------------ the fixpoint

  /** The text after `n` steps. */
  function Repeat(step: string -> string, text: string, n: nat): string {
    if n == 0 then text else step(Repeat(step, text, n - 1))
  }

  /** `limit` in `_to_fixpoint`. */
  function Limit(text: string): nat {
    2 * |text| + 2
  }

  lemma {:induction false} RepeatStays(step: string -> string, text: string, n: nat, m: nat)
    requires n <= m && step(Repeat(step, text, n)) == Repeat(step, text, n)
    ensures Repeat(step, text, m) == Repeat(step, text, n)
  {
    if n < m {
      RepeatStays(step, text, n, m - 1);
    }
  }

  lemma FixedStays(step: string -> string, text: string, n: nat)
    requires step(text) == text
    ensures Repeat(step, text, n) == text
  {
  }

  /** `_to_fixpoint`: the error is raised exactly when the last allowed step still changes the text. */
  method ToFixpoint(step: string -> string, start: string) returns (res: Result<string, nat>)
    ensures var last := Repeat(step, start, 2 * |start| + 1);
      res == if step(last) == last then Ok(last) else Err(2 * |start| + 2)
  {
    var limit := Limit(start);
    var text := start;
    for i := 0 to limit
      invariant text == Repeat(step, start, i)
      invariant i == limit ==> step(Repeat(step, start, i - 1)) != Repeat(step, start, i - 1)
    {
      var cleaned := step(text);
      if cleaned == text {
        RepeatStays(step, start, i, limit - 1);
        return Ok(text);
      }
      text := cleaned;
    }
    return Err(limit);
  }

  /** The step `sanitize` passes to the loop. */
  function Cleaner(a: Alphabet, r: Rules): string -> string {
    t => Pass(a, r, t)
  }

  /** What the loop returns when it reaches a fixpoint. */
  function Reached(step: string -> string, text: string): string {
    Repeat(step, text, Limit(text) - 1)
  }

  /** What `sanitize` returns. */
  function Sanitized(a: Alphabet, r: Rules, text: string): string {
    Reached(Cleaner(a, r), text)
  }

  /** `text` has left room for the pass before it, or no pass changes it. */
  ghost predicate Spent(a: Alphabet, r: Rules, text: string, passes: nat, budget: nat) {
    Settled(a, r, text) && (Pass(a, r, text) == text || |text| + passes <= budget)
  }

  lemma NextSpent(a: Alphabet, r: Rules, text: string, passes: nat, budget: nat)
    requires SaneAlphabet(a) && Bounded(a, r) && Spent(a, r, text, passes, budget)
    ensures Spent(a, r, Pass(a, r, text), passes + 1, budget)
  {
    PassSettles(a, r, text);
    PassOfSettledShrinks(a, r, text);
  }

  lemma {:induction false} RepeatShrinks(a: Alphabet, r: Rules, text: string, n: nat)
    requires SaneAlphabet(a) && Bounded(a, r) && n > 0
    ensures Spent(a, r, Repeat(Cleaner(a, r), text, n), n, 2 * |text| + 1)
  {
    if n == 1 {
      assert Repeat(Cleaner(a, r), text, 1) == Cleaner(a, r)(Repeat(Cleaner(a, r), text, 0)) == Pass(a, r, text);
      PassSettles(a, r, text);
      FirstPassLength(a, r, text);
    } else {
      RepeatShrinks(a, r, text, n - 1);
      NextSpent(a, r, Repeat(Cleaner(a, r), text, n - 1), n - 1, 2 * |text| + 1);
    }
  }

  /** Some pass before the last allowed one changes nothing. */
  lemma ReachedWithinTheLimit(a: Alphabet, r: Rules, text: string)
    requires SaneAlphabet(a) && Bounded(a, r)
    ensures Pass(a, r, Sanitized(a, r, text)) == Sanitized(a, r, text)
    ensures Settled(a, r, Sanitized(a, r, text))
  {
    RepeatShrinks(a, r, text, Limit(text) - 1);
    SpentOut(a, r, Sanitized(a, r, text), Limit(text) - 1);
  }

  lemma SpentOut(a: Alphabet, r: Rules, text: string, passes: nat)
    requires SaneAlphabet(a) && Bounded(a, r) && Spent(a, r, text, passes, passes)
    ensures Pass(a, r, text) == text && Settled(a, r, text)
  {
    PassOfSettledShrinks(a, r, text);
  }

  /** The result of cleaning keeps nothing the rules take out, and the cleaner leaves it as it is. */
  lemma SanitizedIsFixed(a: Alphabet, r: Rules, text: string)
    requires SaneAlphabet(a) && Bounded(a, r)
    ensures Cleaner(a, r)(Sanitized(a, r, text)) == Sanitized(a, r, text) && Settled(a, r, Sanitized(a, r, text))
  {
    ReachedWithinTheLimit(a, r, text);
    assert Cleaner(a, r)(Sanitized(a, r, text)) == Pass(a, r, Sanitized(a, r, text));
  }

  /** A loop that ends in a fixpoint of its step is idempotent. */
  lemma FixpointIsIdempotent(step: string -> string, text: string)
    requires step(Reached(step, text)) == Reached(step, text)
    ensures Reached(step, Reached(step, text)) == Reached(step, text)
  {
    FixedStays(step, Reached(step, text), Limit(Reached(step, text)) - 1);
  }

  /** Cleaning is idempotent. */
  lemma CleaningIsIdempotent(a: Alphabet, r: Rules, text: string)
    requires SaneAlphabet(a) && Bounded(a, r)
    ensures Sanitized(a, r, Sanitized(a, r, text)) == Sanitized(a, r, text)
  {
    SanitizedIsFixed(a, r, text);
    FixpointIsIdempotent(Cleaner(a, r), text);
  }

  /** `sanitize`: the error of too many passes is never raised. */
  method Sanitize(a: Alphabet, r: Rules, text: string) returns (cleaned: string)
    requires SaneAlphabet(a) && Bounded(a, r)
    ensures cleaned == Sanitized(a, r, text) == Pass(a, r, cleaned)
  {
    ReachedWithinTheLimit(a, r, text);
    var res := ToFixpoint(Cleaner(a, r), text);
    cleaned := res.value;
  }

  // ------------------------------------------------------------ what every changing pass lowers

  function NonSpaces(s: string): nat {
    if s == "" then 0 else (if s[0] == ' ' then 0 else 1) + NonSpaces(s[1..])
  }

  /** `t` is `s`, or comes before it by length and then by the number of characters other than spaces. */
  predicate Lower(t: string, s: string) {
    t == s || |t| < |s| || (|t| == |s| && NonSpaces(t) < NonSpaces(s))
  }

  lemma NonSpacesFirst(s: string)
    requires s != ""
    ensures NonSpaces(s) == (if s[0] == ' ' then 0 else 1) + NonSpaces(s[1..])
  {
  }

  /** Putting spaces for other characters leaves fewer of those. */
  lemma {:induction false} SpacesLower(t: string, s: string)
    requires |t| == |s| && forall i | 0 <= i < |s| :: t[i] == s[i] || t[i] == ' '
    ensures NonSpaces(t) <= NonSpaces(s) && (NonSpaces(t) == NonSpaces(s) ==> t == s)
    decreases |s|
  {
    hide NonSpaces;
    if s != "" {
      SpacesLower(t[1..], s[1..]);
      NonSpacesFirst(t);
      NonSpacesFirst(s);
    }
  }

  lemma BlankLower(s: string, bad: char -> bool)
    ensures Lower(Blank(s, bad), s) && NonSpaces(Blank(s, bad)) <= NonSpaces(s)
  {
    hide NonSpaces;
    SpacesLower(Blank(s, bad), s);
  }

  /** Without what it re-attaches, a pass always lowers. */
  lemma CoreLowers(a: Alphabet, r: Rules, text: string)
    requires DeletesOnly(r)
    ensures Lower(Core(a, r, text), text)
  {
    var d := r.delete(text);
    assert Shortens(d, text);
    var t := Unbracket(r, d);
    var b := Blank(t, c => c == '_');
    var f := Blank(b, c => WindowsForbidden(c));
    UnbracketShrinks(r, d);
    BlankLower(t, c => c == '_');
    BlankLower(b, c => WindowsForbidden(c));
    CollapseTidies(a, f);
    CollapseTidies(a, WindowsSafe(a, r, b));
  }

  /** When no rule deletes, every pass that changes the text lowers (length, characters other than spaces). */
  lemma ChangingPassLowers(a: Alphabet, r: Rules, text: string)
    requires SaneAlphabet(a) && DeletesNothing(r)
    ensures Lower(Pass(a, r, text), text)
  {
    CoreLowers(a, r, text);
    if r.brackets {
      RemoveBracketsLength(text);
      PassLength(a, r, text);
      CoreLength(a, r, text);
      UnbracketShrinks(r, text);
    } else {
      DeletingNothingLosesNothing(a, text);
      UnbracketedPass(a, r, text);
    }
  }

  /** The words that a pass re-attaches. */
  function Reattached(a: Alphabet, r: Rules, text: string): seq<string> {
    Missing(a, AllMarkers(a, Brackets(text)), Kinds(a, Markers(a, Core(a, r, text), false)))
  }

  /** Whatever the rules delete, a pass over a text without markers in brackets lowers. */
  lemma PassWithoutMarkersLowers(a: Alphabet, r: Rules, text: string)
    requires DeletesOnly(r) && AllMarkers(a, Brackets(text)) == []
    ensures Lower(Pass(a, r, text), text)
  {
    CoreLowers(a, r, text);
  }

  /** A pass that changes the text lowers exactly when nothing is re-attached, nothing else is left, or more is taken
      out than is re-attached. */
  lemma PassLowersExactly(a: Alphabet, r: Rules, text: string)
    requires SaneAlphabet(a) && DeletesOnly(r) && Pass(a, r, text) != text
    ensures var core, added := Core(a, r, text), |Reattached(a, r, text)|;
      Lower(Pass(a, r, text), text) <==>
        || added == 0
        || core == ""
        || (MARKER_LENGTH + 1) * added < |text| - |core|
        || ((MARKER_LENGTH + 1) * added == |text| - |core|
            && MARKER_LENGTH * added < NonSpaces(text) - NonSpaces(core))
  {
    var core, missing := Core(a, r, text), Reattached(a, r, text);
    CoreLowers(a, r, text);
    CoreSettles(a, r, text);
    BracketsNeedRoom(a, text);
    RemoveBracketsLength(text);
    MissingAreWords(a, AllMarkers(a, Brackets(text)), Kinds(a, Markers(a, core, false)));
    JoinLength(core, missing);
    if missing != [] {
      if core == "" {
        CollapseTidies(a, JoinWords(core, missing));
        LeadingSpaceStripped(a, missing);
      } else {
        JoinTidied(a, core, missing);
        CollapseOfTidied(a, JoinWords(core, missing));
        JoinNonSpaces(a, core, missing);
      }
    }
  }

  /** Markers joined to nothing lose the leading space. */
  lemma LeadingSpaceStripped(a: Alphabet, words: seq<string>)
    requires SaneAlphabet(a) && words != [] && forall w | w in words :: |w| == MARKER_LENGTH
    ensures |CollapseSpaces(a, JoinWords("", words))| < (MARKER_LENGTH + 1) * |words|
  {
    var joined := JoinWords("", words);
    JoinLength("", words);
    JoinStarts("" + " " + words[0], words[1..]);
    assert joined[0] == ' ';
    CollapseTidies(a, joined);
  }

  lemma {:induction false} JoinStarts(cleaned: string, words: seq<string>)
    ensures cleaned <= JoinWords(cleaned, words)
    decreases |words|
  {
    if words != [] {
      JoinStarts(cleaned + " " + words[0], words[1..]);
    }
  }

  lemma {:induction false} NonSpacesAppend(x: string, y: string)
    ensures NonSpaces(x + y) == NonSpaces(x) + NonSpaces(y)
  {
    if x == "" {
      assert x + y == y;
    } else {
      assert (x + y)[1..] == x[1..] + y;
      NonSpacesAppend(x[1..], y);
    }
  }

  lemma {:induction false} NonSpacesOfWord(a: Alphabet, w: string)
    requires SaneAlphabet(a) && forall i | 0 <= i < |w| :: a.isWord(w[i])
    ensures NonSpaces(w) == |w|
  {
    if w != "" {
      NonSpacesOfWord(a, w[1..]);
    }
  }

  lemma {:induction false} JoinNonSpaces(a: Alphabet, cleaned: string, words: seq<string>)
    requires SaneAlphabet(a) && forall w | w in words :: IsMarker(a, w)
    ensures NonSpaces(JoinWords(cleaned, words)) == NonSpaces(cleaned) + MARKER_LENGTH * |words|
    decreases |words|
  {
    if words != [] {
      MarkerChars(a, words[0]);
      NonSpacesOfWord(a, words[0]);
      NonSpacesAppend(cleaned, " ");
      NonSpacesAppend(cleaned + " ", words[0]);
      JoinNonSpaces(a, cleaned + " " + words[0], words[1..]);
    }
  }

  /** When no rule deletes, a marker that stood in a bracket is still there in the end. */
  lemma MarkersSurviveCleaning(a: Alphabet, r: Rules, text: string, kind: string)
    requires SaneAlphabet(a) && DeletesNothing(r) && kind in Kinds(a, AllMarkers(a, Brackets(text)))
    ensures Shows(a, Sanitized(a, r, text), kind)
  {
    DeletingNothingIsBounded(a, r);
    BracketedMarkersStayVisible(a, r, text, kind);
    PassSettles(a, r, text);
    PassOfSettledShrinks(a, r, Pass(a, r, text));
    SecondPassIsLast(a, r, text);
  }

  lemma SecondPassIsLast(a: Alphabet, r: Rules, text: string)
    requires Pass(a, r, Pass(a, r, text)) == Pass(a, r, text)
    ensures Sanitized(a, r, text) == Pass(a, r, text)
  {
    SecondStepIsLast(Cleaner(a, r), text, Limit(text) - 1);
  }

  lemma SecondStepIsLast(step: string -> string, text: string, n: nat)
    requires n > 0 && step(step(text)) == step(text)
    ensures Repeat(step, text, n) == step(text)
  {
  }

  // ------------------------------------------------------------ a deleting rule can make a pass add text

  lemma {:induction false} JoinTidied(a: Alphabet, cleaned: string, words: seq<string>)
    requires SaneAlphabet(a) && Tidied(a, cleaned) && cleaned != "" && forall w | w in words :: IsMarker(a, w)
    ensures Tidied(a, JoinWords(cleaned, words))
    decreases |words|
  {
    if words != [] {
      var w := words[0];
      MarkerChars(a, w);
      forall i | 0 <= i < |w| ensures !a.unicode.isSpace(w[i]) && w[i] != ' ' {
        assert a.isWord(w[i]);
      }
      assert cleaned[|cleaned| - 1] != ' ';
      JoinTidied(a, cleaned + " " + w, words[1..]);
    }
  }

  /** A pass over a text whose core has lost a bracketed marker adds to that core. */
  lemma LostMarkerIsAdded(a: Alphabet, r: Rules, text: string, kind: string)
    requires SaneAlphabet(a) && kind in Kinds(a, AllMarkers(a, Brackets(text)))
    requires Core(a, r, text) != "" && !Shows(a, Core(a, r, text), kind)
    ensures |Pass(a, r, text)| >= |Core(a, r, text)| + MARKER_LENGTH + 1
  {
    var cleaned := Core(a, r, text);
    var words := AllMarkers(a, Brackets(text));
    var seen := Kinds(a, Markers(a, cleaned, false));
    var missing := Missing(a, words, seen);
    CoreSettles(a, r, text);
    BracketsNeedRoom(a, text);
    MissingAreWords(a, words, seen);
    ShowsIsFound(a, cleaned, kind);
    JoinTidied(a, cleaned, missing);
    CollapseOfTidied(a, JoinWords(cleaned, missing));
    JoinLength(cleaned, missing);
  }

  lemma {:induction false} NoMarkerInsideAWord(a: Alphabet, s: string)
    requires forall i | 0 <= i < |s| :: a.isWord(s[i])
    ensures Markers(a, s, true) == []
  {
    if s != "" {
      NoMarkerInsideAWord(a, s[1..]);
    }
  }

  lemma {:induction false} RemoveStraysAppend(x: string, y: string)
    ensures RemoveStrays(x + y) == RemoveStrays(x) + RemoveStrays(y)
  {
    if x == "" {
      assert x + y == y;
    } else {
      assert (x + y)[1..] == x[1..] + y;
      RemoveStraysAppend(x[1..], y);
    }
  }

  lemma {:induction false} NoOpening(s: string)
    requires forall i | 0 <= i < |s| :: s[i] !in {'[', '('}
    ensures RemoveBrackets(s) == s
  {
    if s != "" {
      NoOpening(s[1..]);
    }
  }

  /** Nothing before the first bracket adds to the brackets. */
  lemma {:induction false} BracketsAfter(x: string, y: string)
    requires forall i | 0 <= i < |x| :: x[i] !in {'[', '('}
    ensures Brackets(x + y) == Brackets(y)
  {
    if x == "" {
      assert x + y == y;
    } else {
      assert (x + y)[1..] == x[1..] + y;
      BracketsAfter(x[1..], y);
    }
  }

  ghost predicate AllWord(a: Alphabet, s: string) {
    forall i | 0 <= i < |s| :: a.isWord(s[i]) && Allowed(Rules(true, true, s => s), s[i])
  }

  lemma MarkerIsAllWord(a: Alphabet, w: string)
    requires SaneAlphabet(a) && IsMarker(a, w)
    ensures AllWord(a, w)
  {
    MarkerChars(a, w);
  }

  lemma WordIsTidied(a: Alphabet, c: string)
    requires SaneAlphabet(a) && AllWord(a, c)
    ensures Tidied(a, c)
  {
  }

  lemma LeadingSpaceGoes(a: Alphabet, c: string)
    requires SaneAlphabet(a) && Tidied(a, c) && c != ""
    ensures CollapseSpaces(a, " " + c) == c
  {
    assert (" " + c)[1..] == c;
    SqueezeOfNoDouble(" " + c, false);
    CollapseOfTidied(a, c);
    SqueezeOfNoDouble(c, false);
  }

  lemma StrayGoes(x: string, f: string)
    requires forall i | 0 <= i < |x| :: x[i] !in BRACKETS
    requires forall i | 0 <= i < |f| :: f[i] !in BRACKETS
    ensures RemoveStrays(x + ([')'] + f)) == x + f
  {
    var y := [')'] + f;
    RemoveStraysAppend(x, y);
    RemoveStraysRemoves(x);
    RemoveStraysRemoves(f);
    assert y[0] == ')' && y[1..] == f;
  }

  /** ` marker)word` loses its parenthesis. */
  lemma ClosingGoes(x: string, f: string)
    requires forall i | 0 <= i < |x| :: x[i] !in BRACKETS
    requires forall i | 0 <= i < |f| :: f[i] !in BRACKETS
    ensures RemoveStrays(RemoveBrackets(x + ([')'] + f))) == x + f
  {
    var t := x + ([')'] + f);
    forall i | 0 <= i < |t| ensures t[i] !in {'[', '('} {
      assert t[i] == if i < |x| then x[i] else if i == |x| then ')' else f[i - |x| - 1];
    }
    NoOpening(t);
    StrayGoes(x, f);
  }

  lemma GluedCore(a: Alphabet, r: Rules, text: string, w: string, f: string)
    requires SaneAlphabet(a) && r.brackets && IsMarker(a, w) && AllWord(a, f)
    requires r.delete(text) == " " + w + ")" + f
    ensures Core(a, r, text) == w + f && AllWord(a, w + f)
  {
    MarkerIsAllWord(a, w);
    ClosingGoes(" " + w, f);
    var c := w + f;
    assert " " + w + ")" + f == " " + w + ([')'] + f) && " " + w + f == " " + c;
    assert AllWord(a, c);
    BlankWord(" " + c, x => x == '_');
    BlankWord(" " + c, x => WindowsForbidden(x));
    BlankWord(c, x => WindowsForbidden(x));
    WordIsTidied(a, c);
    LeadingSpaceGoes(a, c);
    CollapseOfTidied(a, c);
  }

  lemma GluedMarkerIsLost(a: Alphabet, w: string, f: string, kind: string)
    requires SaneAlphabet(a) && IsMarker(a, w) && AllWord(a, w + f) && f != ""
    ensures !Shows(a, w + f, kind)
  {
    var c := w + f;
    NoMarkerInsideAWord(a, c[1..]);
    assert a.isWord(c[0]) && a.isWord(c[MARKER_LENGTH]);
    assert Markers(a, c, false) == [];
    ShowsIsFound(a, c, kind);
  }

  lemma BracketText(b: string, f: string)
    requires |b| >= 2 && b[0] == '(' && b[|b| - 1] == ')' && forall i | 0 < i < |b| - 1 :: b[i] != ')'
    ensures BracketLength(b + f) == |b| && (b + f)[..|b|] == b
  {
    var rest := (b + f)[1..];
    assert forall i | 0 <= i < |b| - 1 :: rest[i] == b[i + 1];
    IndexOfIs(rest, ')', |b| - 2);
    assert (b + f)[..|b|] == b;
  }

  lemma FirstBracket(a: Alphabet, b: string, f: string, w: string)
    requires |b| >= 2 && BracketLength(b + f) == |b| && (b + f)[..|b|] == b && w in Markers(a, b, false)
    ensures w in AllMarkers(a, Brackets(b + f))
  {
    assert Brackets(b + f)[0] == b;
  }

  lemma BracketHoldsMarker(a: Alphabet, p: string, w: string, f: string)
    requires SaneAlphabet(a) && IsMarker(a, w) && forall i | 0 <= i < |p| :: p[i] !in {'[', '('}
    ensures Folded(a, w) in Kinds(a, AllMarkers(a, Brackets(p + ("( " + w + ")" + f))))
  {
    var b := "( " + w + ")";
    NoBracketInMarker(a, w);
    hide IsMarker, SaneAlphabet;
    BracketsAfter(p, b + f);
    BracketText(b, f);
    InABracket(a, w);
    FirstBracket(a, b, f, w);
  }

  lemma NoBracketInMarker(a: Alphabet, w: string)
    requires SaneAlphabet(a) && IsMarker(a, w)
    ensures var b := "( " + w + ")"; |b| >= 2 && b[|b| - 1] == ')' && forall i | 0 < i < |b| - 1 :: b[i] != ')'
  {
    var b := "( " + w + ")";
    MarkerIsAllWord(a, w);
    assert forall i | 2 <= i < |b| - 1 :: b[i] == w[i - 2];
  }

  lemma InABracket(a: Alphabet, w: string)
    requires SaneAlphabet(a) && IsMarker(a, w)
    ensures w in Markers(a, "( " + w + ")", false)
  {
    assert Stands(a, "( ", w, ")");
    StandingIsFound(a, "( ", w, ")", false);
  }

  /** When a deleting rule takes the opening parenthesis of `p( marker)word` with what stands before it (as the URL rule
      does for `a.com/( uncensored)foo`), the marker sticks to the word, is not seen, and is added again: with less
      than eight characters before the parenthesis, the pass makes the text longer. */
  lemma APassCanLengthen(a: Alphabet, r: Rules, p: string, w: string, f: string)
    requires SaneAlphabet(a) && r.brackets && IsMarker(a, w) && AllWord(a, f) && f != ""
    requires |p| < 8 && forall i | 0 <= i < |p| :: p[i] !in {'[', '('}
    requires r.delete(p + ("( " + w + ")" + f)) == " " + w + ")" + f
    ensures var text := p + ("( " + w + ")" + f); |Pass(a, r, text)| > |text|
  {
    var text := p + ("( " + w + ")" + f);
    GluedCore(a, r, text, w, f);
    GluedMarkerIsLost(a, w, f, Folded(a, w));
    BracketHoldsMarker(a, p, w, f);
    LostMarkerIsAdded(a, r, text, Folded(a, w));
  }
}
