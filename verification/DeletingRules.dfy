/**
 The rules of the cleaning pass that only delete, behind the hex repair: URLs, scan-group words, trailing slashes and G-codes
 (scripts/cbz_core.py). They are fair to markers, so cleaning reaches its fixpoint within the bound for every rule set.
 */
module DeletingRules {
  import opened Cleaning
  import opened CanonicalNumbers
  import opened HexRepair
  import opened RepairedMarkers
  import opened StandingMarkers

  /** The endings `_URL_RE` knows, in its order. */
  const URL_ENDINGS := ["com", "net", "org", "io", "co", "info", "biz", "tv", "me", "cc", "us", "uk", "ca", "au"]

  /** The text starts with `w` up to case. */
  predicate Starts(a: Alphabet, s: string, w: string) {
    |w| <= |s| && forall i | 0 <= i < |w| :: Matches(a, s[i], w[i])
  }

  /** `\b` before `s`. */
  predicate Boundary(a: Alphabet, inWord: bool, s: string) {
    inWord != (s != "" && a.isWord(s[0]))
  }

  /** `[\w-]*` */
  function Run(a: Alphabet, s: string): (n: nat)
    ensures n <= |s| && (n < |s| ==> !a.isWord(s[n]) && s[n] != '-')
  {
    if s != "" && (a.isWord(s[0]) || s[0] == '-') then 1 + Run(a, s[1..]) else 0
  }

  /** `\S*` */
  function Solid(a: Alphabet, s: string): (n: nat)
    ensures n <= |s| && (n < |s| ==> a.unicode.isSpace(s[n]))
  {
    if s != "" && !a.unicode.isSpace(s[0]) then 1 + Solid(a, s[1..]) else 0
  }

  // ------------------------------------------------------------ URLs

  /** `prefix\S+` */
  function Prefixed(a: Alphabet, s: string, prefix: string): (n: nat)
    ensures n <= |s| && (n > 0 ==> n > |prefix| && Starts(a, s, prefix) && (n < |s| ==> a.unicode.isSpace(s[n])))
  {
    if Starts(a, s, prefix) && Solid(a, s[|prefix|..]) > 0 then |prefix| + Solid(a, s[|prefix|..]) else 0
  }

  /** The first of the endings that `s` starts with. */
  function Ending(a: Alphabet, s: string, endings: seq<string>): (n: nat)
    ensures n <= |s| && (n > 0 ==> exists t | t in endings :: |t| == n && Starts(a, s, t))
  {
    if endings == [] then 0
    else if Starts(a, s, endings[0]) then |endings[0]|
    else Ending(a, s, endings[1..])
  }

  /** `\b[\w-]+\.(?:com|...)(?:/\S*)?`. The host is the whole run, because what follows it is a dot. */
  function Site(a: Alphabet, s: string, inWord: bool, endings: seq<string>): (n: nat)
    ensures n <= |s|
  {
    var h := Run(a, s);
    if !Boundary(a, inWord, s) || h == 0 || h == |s| || s[h] != '.' then 0 else
    var e := Ending(a, s[h + 1..], endings);
    if e == 0 then 0
    else if h + 1 + e < |s| && s[h + 1 + e] == '/' then h + 2 + e + Solid(a, s[h + 2 + e..])
    else h + 1 + e
  }

  /** The length of the match of `_URL_RE` at `s`, or 0. */
  function UrlLength(a: Alphabet, s: string, inWord: bool): nat {
    if Prefixed(a, s, "https://") > 0 then Prefixed(a, s, "https://")
    else if Prefixed(a, s, "http://") > 0 then Prefixed(a, s, "http://")
    else if Prefixed(a, s, "www.") > 0 then Prefixed(a, s, "www.")
    else Site(a, s, inWord, URL_ENDINGS)
  }

  // ------------------------------------------------------------ scan groups

  predicate EndsWord(a: Alphabet, s: string, n: nat) {
    n == |s| || (n < |s| && !a.isWord(s[n]))
  }

  /** `words?\b` at the start of `s`. */
  function Closing(a: Alphabet, s: string, word: string): (n: nat)
    ensures n > 0 ==> |word| <= n <= |word| + 1 && n <= |s| && Starts(a, s, word) && EndsWord(a, s, n)
    ensures n > |word| ==> Matches(a, s[|word|], 's')
  {
    if !Starts(a, s, word) then 0
    else if |s| > |word| && Matches(a, s[|word|], 's') && EndsWord(a, s, |word| + 1) then |word| + 1
    else if EndsWord(a, s, |word|) then |word|
    else 0
  }

  /** `[\w-]*words?\b`, greedy: the last place in the run, from `k` down, where the word closes. */
  function LastClosing(a: Alphabet, s: string, word: string, k: nat): (n: nat)
    requires k <= |s|
    ensures n > 0 ==> exists j | 0 <= j <= k :: Closing(a, s[j..], word) > 0 && n == j + Closing(a, s[j..], word)
    ensures (exists j | 0 <= j <= k :: Closing(a, s[j..], word) > 0) ==> n > 0
  {
    if Closing(a, s[k..], word) > 0 then k + Closing(a, s[k..], word)
    else if k == 0 then 0
    else LastClosing(a, s, word, k - 1)
  }

  /** The length of the match of `_SCAN_GROUP_RE` at `s`, or 0. */
  function ScanLength(a: Alphabet, s: string, inWord: bool): nat {
    if !Boundary(a, inWord, s) then 0
    else if LastClosing(a, s, "scan", Run(a, s)) > 0 then LastClosing(a, s, "scan", Run(a, s))
    else if LastClosing(a, s, "scanner", Run(a, s)) > 0 then LastClosing(a, s, "scanner", Run(a, s))
    else LastClosing(a, s, "scanlation", Run(a, s))
  }

  // ------------------------------------------------------------ deleting

  function UrlRule(a: Alphabet): Rule {
    (s, inWord) => UrlLength(a, s, inWord)
  }

  function ScanRule(a: Alphabet): Rule {
    (s, inWord) => ScanLength(a, s, inWord)
  }

  /** `_TRAILING_SLASH_RE.sub("", s)` */
  function Slashes(a: Alphabet, s: string): string {
    if s != "" && (a.unicode.isSpace(s[|s| - 1]) || s[|s| - 1] == '/') then Slashes(a, s[..|s| - 1]) else s
  }

  /** `[\s\-]*` before what is cut. */
  function Dashes(a: Alphabet, s: string): string {
    if s != "" && (a.unicode.isSpace(s[|s| - 1]) || s[|s| - 1] == '-') then Dashes(a, s[..|s| - 1]) else s
  }

  /** `_GCODE_RE.sub("", s)` on a text without trailing spaces. */
  function GCode(a: Alphabet, s: string): string {
    var d := TrailingDigits(a.unicode.isDigit, s);
    var g := |s| - d - 1;
    if 3 <= d <= 5 && g >= 0 && s[g] == 'G' && (g == 0 || !a.isWord(s[g - 1])) then Dashes(a, s[..g]) else s
  }

  /** The deleting rules in the order of the pass. */
  function Delete(a: Alphabet, url: bool, scanGroups: bool, s: string): string {
    var u := if url then Strip(a, UrlRule(a), s, false) else s;
    var g := if scanGroups then Strip(a, ScanRule(a), u, false) else u;
    GCode(a, Slashes(a, g))
  }

  /** The rules of a pass; before those that delete, the hex repair. */
  function RuleSet(a: Alphabet, url: bool, scanGroups: bool, brackets: bool, windowsSafe: bool): Rules {
    Rules(brackets, windowsSafe, s => Delete(a, url, scanGroups, Repaired(s)))
  }

  // ------------------------------------------------------------ URLs are fair

  /** The first two letters are not those of a marker. */
  predicate NoMarkerHead(c: char, d: char) {
    IsLetter(c) && IsLetter(d) && !(c == 'u' && d == 'n') && !(c == 'd' && d == 'e')
  }

  /** Endings are short words that start no marker. */
  predicate IsEnding(t: string) {
    2 <= |t| < MARKER_LENGTH && (forall i | 0 <= i < |t| :: IsLetter(t[i])) && NoMarkerHead(t[0], t[1])
  }

  ghost predicate AllEndings(endings: seq<string>) {
    forall i | 0 <= i < |endings| :: IsEnding(endings[i])
  }

  lemma UrlEndings()
    ensures AllEndings(URL_ENDINGS)
  {
  }

  lemma MarkerHead(a: Alphabet, s: string)
    requires MarkerStarts(a, s)
    ensures || (a.unicode.fold(s[0]) == a.unicode.fold('u') && a.unicode.fold(s[1]) == a.unicode.fold('n'))
            || (a.unicode.fold(s[0]) == a.unicode.fold('d') && a.unicode.fold(s[1]) == a.unicode.fold('e'))
  {
    var f, u, d := Folded(a, s[..MARKER_LENGTH]), Folded(a, UNCENSORED), Folded(a, DECENSORED);
    assert f[0] == a.unicode.fold(s[0]) && f[1] == a.unicode.fold(s[1]);
    assert u[0] == a.unicode.fold('u') && u[1] == a.unicode.fold('n');
    assert d[0] == a.unicode.fold('d') && d[1] == a.unicode.fold('e');
  }

  lemma NoMarkerStartsLike(a: Alphabet, s: string, c: char, d: char)
    requires Latin(a) && |s| >= 2 && NoMarkerHead(c, d) && Matches(a, s[0], c) && Matches(a, s[1], d)
    ensures !MarkerStarts(a, s)
  {
    hide MarkerStarts;
    assert SameFold(a, c, 'u') ==> c == 'u';
    assert SameFold(a, d, 'n') ==> d == 'n';
    assert SameFold(a, c, 'd') ==> c == 'd';
    assert SameFold(a, d, 'e') ==> d == 'e';
    if MarkerStarts(a, s) {
      MarkerHead(a, s);
    }
  }

  /** A letter no marker has. */
  predicate Foreign(l: char) {
    l in {'a', 'h', 'w'}
  }

  lemma MarkerLetters(l: char)
    requires Foreign(l)
    ensures forall m | m in UNCENSORED + DECENSORED :: IsLetter(m) && m != l
  {
  }

  /** `c` is one of the letters up to case. */
  ghost predicate LetterOf(a: Alphabet, c: char, letters: string) {
    exists m | m in letters :: a.unicode.fold(c) == a.unicode.fold(m)
  }

  lemma OtherLetter(a: Alphabet, c: char, l: char, letters: string)
    requires Latin(a) && IsLetter(l) && Matches(a, c, l) && forall m | m in letters :: IsLetter(m) && m != l
    ensures !LetterOf(a, c, letters)
  {
    forall m | m in letters ensures a.unicode.fold(c) != a.unicode.fold(m) {
      assert !SameFold(a, l, m);
    }
  }

  lemma ForeignIsNoMarkerLetter(a: Alphabet, c: char, l: char)
    requires Latin(a) && Foreign(l) && Matches(a, c, l)
    ensures !MarkerLetter(a, c)
  {
    hide Latin;
    MarkerLetters(l);
    OtherLetter(a, c, l, UNCENSORED + DECENSORED);
    assert MarkerLetter(a, c) == LetterOf(a, c, UNCENSORED + DECENSORED);
  }

  lemma MarkerStartLetters(a: Alphabet, s: string, i: nat)
    requires MarkerStarts(a, s) && i < MARKER_LENGTH
    ensures MarkerLetter(a, s[i])
  {
    hide MarkerLetter;
    MarkerChars(a, s[..MARKER_LENGTH]);
    assert s[i] == s[..MARKER_LENGTH][i];
  }

  /** Nothing that starts with a foreign letter matches inside a marker, or right after one. */
  lemma ForeignPrefix(a: Alphabet, s: string, i: nat, w: string)
    requires Latin(a) && MarkerStarts(a, s) && 0 < i <= MARKER_LENGTH && w != "" && Foreign(w[0])
    ensures !Starts(a, s[i..], w)
  {
    hide MarkerLetter, IsMarker;
    if i < |s| && Matches(a, s[i], w[0]) {
      assert a.isWord(s[i]);
      ForeignIsNoMarkerLetter(a, s[i], w[0]);
      if i < MARKER_LENGTH {
        MarkerStartLetters(a, s, i);
      }
    }
  }

  lemma {:induction false} RunExtends(a: Alphabet, s: string, k: nat)
    requires k <= |s| && forall i | 0 <= i < k :: a.isWord(s[i])
    ensures Run(a, s) == k + Run(a, s[k..])
    decreases k
  {
    if k == 0 {
      assert s[0..] == s;
    } else {
      RunExtends(a, s[1..], k - 1);
      assert s[1..][k - 1..] == s[k..];
    }
  }

  /** A host that could start right after a marker starts with it. */
  lemma SiteTakesMarker(a: Alphabet, s: string, endings: seq<string>)
    requires Latin(a) && MarkerStarts(a, s) && Site(a, s, false, endings) == 0
    ensures Site(a, s[MARKER_LENGTH..], true, endings) == 0
  {
    hide IsMarker, SaneAlphabet, Starts;
    MarkerStartIsWord(a, s);
    RunExtends(a, s, MARKER_LENGTH);
    var rest := s[MARKER_LENGTH..];
    var h := Run(a, rest);
    if h < |rest| {
      assert s[MARKER_LENGTH + h] == rest[h] && s[MARKER_LENGTH + h + 1..] == rest[h + 1..];
    }
  }

  lemma UrlSparesAt(a: Alphabet, s: string, i: nat)
    requires Latin(a) && MarkerStarts(a, s) && UrlLength(a, s, false) == 0 && 0 < i <= MARKER_LENGTH
    ensures UrlLength(a, s[i..], true) == 0
  {
    hide Starts, Latin, MarkerStarts;
    ForeignPrefix(a, s, i, "https://");
    ForeignPrefix(a, s, i, "http://");
    ForeignPrefix(a, s, i, "www.");
    NoSiteAt(a, s, i, URL_ENDINGS);
  }

  lemma NoSiteAt(a: Alphabet, s: string, i: nat, endings: seq<string>)
    requires Latin(a) && MarkerStarts(a, s) && Site(a, s, false, endings) == 0 && 0 < i <= MARKER_LENGTH
    ensures Site(a, s[i..], true, endings) == 0
  {
    SiteTakesMarker(a, s, endings);
    MarkerStartIsWord(a, s);
    assert i < MARKER_LENGTH ==> a.isWord(s[i..][0]);
  }

  lemma UrlSparesMarkers(a: Alphabet, s: string)
    requires Latin(a) && MarkerStarts(a, s) && UrlLength(a, s, false) == 0
    ensures Spares(a, UrlRule(a), s)
  {
    hide UrlLength, Latin, IsMarker;
    forall i | 0 < i <= MARKER_LENGTH ensures UrlRule(a)(s[i..], true) == 0 {
      UrlSparesAt(a, s, i);
    }
  }

  /** Where a word ends, or the text, every marker stays whole. */
  lemma EndStaysWhole(a: Alphabet, s: string, inWord: bool, n: nat)
    requires SaneAlphabet(a) && 0 < n <= |s| && (n == |s| || !a.isWord(s[n]))
    ensures CleanEnd(a, s, n) && EachStaysWhole(a, s, inWord, n)
  {
    BoundaryParts(a, s, n);
    forall kind | Seen(a, s, inWord, kind)
      ensures Seen(a, s[..n], inWord, kind) || Seen(a, s[n..], a.isWord(s[n - 1]), kind)
    {
      SeenInParts(a, s, inWord, n, kind);
    }
  }

  lemma PrefixedIsFair(a: Alphabet, s: string, inWord: bool, prefix: string)
    requires Latin(a) && 1 < |prefix| < MARKER_LENGTH && prefix[|prefix| - 1] in {'/', '.'}
    requires Prefixed(a, s, prefix) > 0
    ensures var n := Prefixed(a, s, prefix);
      && CleanEnd(a, s, n) && EachStaysWhole(a, s, inWord, n)
      && (MARKER_LENGTH + 1) * KindCount(a, s[..n], inWord) < n
  {
    var n, k := Prefixed(a, s, prefix), |prefix|;
    assert Matches(a, s[k - 1], prefix[k - 1]);
    EndStaysWhole(a, s, inWord, n);
    AfterPrefix(a, s[..n], inWord, k);
  }

  lemma AfterPrefix(a: Alphabet, m: string, inWord: bool, k: nat)
    requires Latin(a) && 1 < k < MARKER_LENGTH && k < |m| && !a.isWord(m[k - 1])
    ensures (MARKER_LENGTH + 1) * KindCount(a, m, inWord) < |m|
  {
    hide SaneAlphabet, KindCount;
    BoundaryParts(a, m, k);
    CountInParts(a, m, inWord, k);
    ShortHasNone(a, m[..k], inWord);
    Room(a, m[k..], a.isWord(m[k - 1]));
  }

  /** The ending is a word, and no marker starts with it. */
  lemma EndingIsWord(a: Alphabet, s: string, endings: seq<string>)
    requires Latin(a) && AllEndings(endings) && Ending(a, s, endings) > 0
    ensures var e := Ending(a, s, endings);
      2 <= e < MARKER_LENGTH && (forall i | 0 <= i < e :: a.isWord(s[i])) && !MarkerStarts(a, s)
  {
    hide MarkerStarts;
    var e := Ending(a, s, endings);
    var t :| t in endings && |t| == e && Starts(a, s, t);
    assert IsEnding(t);
    forall i | 0 <= i < e ensures a.isWord(s[i]) {
      assert Matches(a, s[i], t[i]);
    }
    NoMarkerStartsLike(a, s, t[0], t[1]);
  }

  /** The three parts of a site: the host with its dot, the ending, and the path. */
  lemma SiteParts(a: Alphabet, s: string, inWord: bool, endings: seq<string>) returns (h: nat, e: nat)
    requires SaneAlphabet(a) && Site(a, s, inWord, endings) > 0
    ensures h < |s| && s[h] == '.' && e > 0 && e == Ending(a, s[h + 1..], endings)
    ensures var n := Site(a, s, inWord, endings);
      n == h + 1 + e || (n > h + 1 + e && s[h + 1 + e] == '/' && EndsWord(a, s, n))
  {
    h := Run(a, s);
    e := Ending(a, s[h + 1..], endings);
    var n := Site(a, s, inWord, endings);
    if n != h + 1 + e && n < |s| {
      assert s[h + 2 + e..][n - h - 2 - e] == s[n];
    }
  }

  lemma SiteStaysWhole(a: Alphabet, s: string, inWord: bool, endings: seq<string>)
    requires Latin(a) && AllEndings(endings) && Site(a, s, inWord, endings) > 0
    ensures var n := Site(a, s, inWord, endings); CleanEnd(a, s, n) && EachStaysWhole(a, s, inWord, n)
  {
    hide Site, AllEndings, MarkerStarts, EachStaysWhole, CleanEnd;
    var n := Site(a, s, inWord, endings);
    var h, e := SiteParts(a, s, inWord, endings);
    EndingIsWord(a, s[h + 1..], endings);
    if n > h + 1 + e {
      EndStaysWhole(a, s, inWord, n);
    } else {
      HostStaysWhole(a, s, inWord, h, s[h + 1..], e);
    }
  }

  /** The match ends with the ending, perhaps in the middle of a word, but not of a marker. */
  lemma HostStaysWhole(a: Alphabet, s: string, inWord: bool, h: nat, rest: string, e: nat)
    requires Latin(a) && h + 1 + e <= |s| && s[h] == '.' && e > 0 && rest == s[h + 1..]
    requires !MarkerStarts(a, rest) && forall i | 0 <= i < e :: a.isWord(rest[i])
    ensures CleanEnd(a, s, h + 1 + e) && EachStaysWhole(a, s, inWord, h + 1 + e)
  {
    var n, host := h + 1 + e, s[..h + 1];
    assert s == host + rest && s[..n] == host + rest[..e] && s[n..] == rest[e..] && s[n - 1] == rest[e - 1];
    forall kind | Seen(a, s, inWord, kind) ensures Seen(a, s[..n], inWord, kind) || Seen(a, s[n..], true, kind) {
      KindStaysWhole(a, host, rest, inWord, e, kind);
    }
  }

  lemma KindStaysWhole(a: Alphabet, host: string, rest: string, inWord: bool, e: nat, kind: string)
    requires SaneAlphabet(a) && host != "" && !a.isWord(host[|host| - 1]) && 0 < e <= |rest|
    requires !MarkerStarts(a, rest) && (forall i | 0 <= i < e :: a.isWord(rest[i])) && Seen(a, host + rest, inWord, kind)
    ensures Seen(a, host + rest[..e], inWord, kind) || Seen(a, rest[e..], true, kind)
  {
    hide MarkerStarts, SaneAlphabet;
    var s, h := host + rest, |host|;
    assert s[..h] == host && s[h..] == rest;
    assert s[h - 1] == host[h - 1];
    BoundaryParts(a, s, h);
    SeenInParts(a, s, inWord, h, kind);
    if Seen(a, host, inWord, kind) {
      SeenExtends(a, host, rest[..e], inWord, kind);
    } else {
      PastEnding(a, rest, e, kind);
    }
  }

  lemma PastEnding(a: Alphabet, s: string, e: nat, kind: string)
    requires 0 < e <= |s| && !MarkerStarts(a, s) && (forall i | 0 <= i < e :: a.isWord(s[i])) && Seen(a, s, false, kind)
    ensures Seen(a, s[e..], true, kind)
  {
    hide MarkerStarts;
    SkipWord(a, s[1..], e - 1, kind);
    assert s[1..][e - 1..] == s[e..];
  }

  lemma SiteHasRoom(a: Alphabet, s: string, inWord: bool, endings: seq<string>)
    requires Latin(a) && AllEndings(endings) && Site(a, s, inWord, endings) > 0
    ensures var n := Site(a, s, inWord, endings); (MARKER_LENGTH + 1) * KindCount(a, s[..n], inWord) < n
  {
    var n := Site(a, s, inWord, endings);
    var h, e := SiteParts(a, s, inWord, endings);
    EndingIsWord(a, s[h + 1..], endings);
    PartsHaveRoom(a, s[..n], inWord, h, e);
  }

  lemma PartsHaveRoom(a: Alphabet, m: string, inWord: bool, h: nat, e: nat)
    requires Latin(a) && 2 <= e < MARKER_LENGTH && h + 1 + e <= |m| && m[h] == '.'
    requires h + 1 + e < |m| ==> m[h + 1 + e] == '/'
    ensures (MARKER_LENGTH + 1) * KindCount(a, m, inWord) < |m|
  {
    hide KindCount;
    var host, rest := m[..h + 1], m[h + 1..];
    BoundaryParts(a, m, h + 1);
    CountInParts(a, m, inWord, h + 1);
    RoomBeforeNonWord(a, host, inWord);
    if |rest| == e {
      ShortHasNone(a, rest, false);
    } else {
      BoundaryParts(a, rest, e);
      CountInParts(a, rest, false, e);
      ShortHasNone(a, rest[..e], false);
      RoomAfterNonWord(a, rest[e..], a.isWord(rest[e - 1]));
    }
  }

  lemma UrlIsFairAt(a: Alphabet, s: string, inWord: bool)
    requires Latin(a)
    ensures FairAt(a, UrlRule(a), s, inWord)
  {
    hide Prefixed, Site, Latin, EachStaysWhole, CleanEnd, KindCount, Spares, MarkerStarts;
    UrlEndings();
    if Prefixed(a, s, "https://") > 0 {
      PrefixedIsFair(a, s, inWord, "https://");
    } else if Prefixed(a, s, "http://") > 0 {
      PrefixedIsFair(a, s, inWord, "http://");
    } else if Prefixed(a, s, "www.") > 0 {
      PrefixedIsFair(a, s, inWord, "www.");
    } else if Site(a, s, inWord, URL_ENDINGS) > 0 {
      SiteStaysWhole(a, s, inWord, URL_ENDINGS);
      SiteHasRoom(a, s, inWord, URL_ENDINGS);
    } else if !inWord && MarkerStarts(a, s) {
      UrlSparesMarkers(a, s);
    }
  }

  lemma UrlIsFair(a: Alphabet)
    requires Latin(a)
    ensures Fair(a, UrlRule(a))
  {
    hide Latin, FairAt;
    forall s: string, inWord ensures FairAt(a, UrlRule(a), s, inWord) {
      UrlIsFairAt(a, s, inWord);
    }
  }

  // ------------------------------------------------------------ scan groups are fair

  predicate IsScanWord(w: string) {
    |w| >= 4 && w[0] == 's' && w[1] == 'c' && w[2] == 'a' && forall i | 0 <= i < |w| :: IsLetter(w[i])
  }

  lemma ScanWords()
    ensures IsScanWord("scan") && IsScanWord("scanner") && IsScanWord("scanlation")
  {
  }

  /** The match closes one of the words, after a run that may be empty. */
  lemma ScanCloses(a: Alphabet, s: string, inWord: bool) returns (w: string, j: nat)
    requires ScanLength(a, s, inWord) > 0
    ensures IsScanWord(w) && j <= |s| && Closing(a, s[j..], w) > 0
    ensures ScanLength(a, s, inWord) == j + Closing(a, s[j..], w)
  {
    ScanWords();
    var run := Run(a, s);
    w := if LastClosing(a, s, "scan", run) > 0 then "scan"
         else if LastClosing(a, s, "scanner", run) > 0 then "scanner" else "scanlation";
    j := LastPlace(a, s, w, run);
  }

  lemma LastPlace(a: Alphabet, s: string, w: string, k: nat) returns (j: nat)
    requires k <= |s| && LastClosing(a, s, w, k) > 0
    ensures j <= k && Closing(a, s[j..], w) > 0 && LastClosing(a, s, w, k) == j + Closing(a, s[j..], w)
  {
    j :| 0 <= j <= k && Closing(a, s[j..], w) > 0 && LastClosing(a, s, w, k) == j + Closing(a, s[j..], w);
  }

  /** All of `scans` and its like is one word, and no marker starts like it. */
  lemma ClosingIsWord(a: Alphabet, s: string, w: string)
    requires Latin(a) && IsScanWord(w) && Closing(a, s, w) > 0
    ensures forall i | 0 <= i < Closing(a, s, w) :: a.isWord(s[i])
    ensures !MarkerStarts(a, s) && Matches(a, s[2], 'a')
  {
    hide MarkerStarts, SaneAlphabet;
    assert Matches(a, s[0], 's') && Matches(a, s[1], 'c');
    forall i | 0 <= i < |w| ensures a.isWord(s[i]) {
      assert Matches(a, s[i], w[i]);
    }
    NoMarkerStartsLike(a, s, 's', 'c');
  }

  /** No marker stands across the start of such a word: it would have its `a`, or end within the word. */
  lemma NoneAcrossScan(a: Alphabet, m: string, k: nat, w: string)
    requires Latin(a) && IsScanWord(w) && 0 < k <= |m| && Closing(a, m[k..], w) > 0
    ensures NoneAcross(a, m, k)
  {
    hide MarkerLetter, IsMarker, Latin;
    var rest := m[k..];
    ClosingIsWord(a, rest, w);
    assert m[k + 1] == rest[1] && m[k + 2] == rest[2] && Closing(a, rest, w) >= 4;
    ForeignIsNoMarkerLetter(a, m[k + 2], 'a');
    forall i | 0 <= i < k < i + MARKER_LENGTH && i + MARKER_LENGTH <= |m| ensures !MarkerStarts(a, m[i..]) {
      NoMarkerUpTo(a, m, i, k);
    }
  }

  lemma NoMarkerUpTo(a: Alphabet, m: string, i: nat, k: nat)
    requires i < k < i + MARKER_LENGTH && i + MARKER_LENGTH <= |m| && k + 2 < |m|
    requires a.isWord(m[k + 1]) && a.isWord(m[k + 2]) && !MarkerLetter(a, m[k + 2])
    ensures !MarkerStarts(a, m[i..])
  {
    hide MarkerLetter, IsMarker;
    if k + 2 < i + MARKER_LENGTH {
      assert m[i..][k + 2 - i] == m[k + 2];
      if MarkerStarts(a, m[i..]) {
        MarkerStartLetters(a, m[i..], k + 2 - i);
      }
    } else {
      assert m[i..][MARKER_LENGTH] == m[i + MARKER_LENGTH];
    }
  }

  lemma ScanHasRoom(a: Alphabet, s: string, inWord: bool)
    requires Latin(a) && ScanLength(a, s, inWord) > 0
    ensures var n := ScanLength(a, s, inWord);
      n <= |s| && EndsWord(a, s, n) && (MARKER_LENGTH + 1) * KindCount(a, s[..n], inWord) < n
  {
    hide ScanLength, KindCount, Latin, IsScanWord;
    var n := ScanLength(a, s, inWord);
    var w, k := ScanCloses(a, s, inWord);
    var m := s[..n];
    ClosingAlone(a, s, k, w);
    ScanWordHasNone(a, m[k..], if k == 0 then inWord else a.isWord(m[k - 1]), w);
    if k == 0 {
      assert m[0..] == m;
    } else {
      NoneAcrossScan(a, m, k, w);
      CountInParts(a, m, inWord, k);
      Room(a, m[..k], inWord);
    }
  }

  /** The match closes on its own as it does in the text. */
  lemma ClosingAlone(a: Alphabet, s: string, k: nat, w: string)
    requires k <= |s| && IsScanWord(w) && Closing(a, s[k..], w) > 0
    ensures var n := k + Closing(a, s[k..], w);
      && k + 4 <= n <= |s| && EndsWord(a, s, n)
      && Closing(a, s[..n][k..], w) == n - k == |s[..n][k..]|
  {
    var c := Closing(a, s[k..], w);
    assert s[..k + c][k..] == s[k..][..c];
  }

  lemma ScanWordHasNone(a: Alphabet, s: string, inWord: bool, w: string)
    requires Latin(a) && IsScanWord(w) && s != "" && Closing(a, s, w) == |s|
    ensures KindCount(a, s, inWord) == 0
  {
    hide MarkerStarts, Latin, IsScanWord, Starts;
    ClosingIsWord(a, s, w);
    forall kind | Seen(a, s, inWord, kind) ensures false {
      SkipWord(a, s[1..], |s| - 1, kind);
    }
  }

  lemma WordSparesMarker(a: Alphabet, s: string, w: string)
    requires SaneAlphabet(a) && MarkerStarts(a, s) && LastClosing(a, s, w, Run(a, s)) == 0
    ensures var rest := s[MARKER_LENGTH..]; LastClosing(a, rest, w, Run(a, rest)) == 0
  {
    hide IsMarker, SaneAlphabet, Starts;
    MarkerStartIsWord(a, s);
    RunExtends(a, s, MARKER_LENGTH);
    var rest := s[MARKER_LENGTH..];
    forall j | 0 <= j <= Run(a, rest) ensures Closing(a, rest[j..], w) == 0 {
      assert rest[j..] == s[MARKER_LENGTH + j..];
    }
  }

  lemma ScanSparesAt(a: Alphabet, s: string, i: nat)
    requires SaneAlphabet(a) && MarkerStarts(a, s) && ScanLength(a, s, false) == 0 && 0 < i <= MARKER_LENGTH
    ensures ScanLength(a, s[i..], true) == 0
  {
    hide IsMarker, SaneAlphabet;
    MarkerStartIsWord(a, s);
    if i < MARKER_LENGTH {
      assert a.isWord(s[i..][0]);
    } else {
      WordSparesMarker(a, s, "scan");
      WordSparesMarker(a, s, "scanner");
      WordSparesMarker(a, s, "scanlation");
    }
  }

  lemma ScanSparesMarkers(a: Alphabet, s: string)
    requires SaneAlphabet(a) && MarkerStarts(a, s) && ScanLength(a, s, false) == 0
    ensures Spares(a, ScanRule(a), s)
  {
    hide ScanLength, SaneAlphabet, IsMarker;
    forall i | 0 < i <= MARKER_LENGTH ensures ScanRule(a)(s[i..], true) == 0 {
      ScanSparesAt(a, s, i);
    }
  }

  lemma ScanIsFairAt(a: Alphabet, s: string, inWord: bool)
    requires Latin(a)
    ensures FairAt(a, ScanRule(a), s, inWord)
  {
    hide ScanLength, KindCount, EachStaysWhole, CleanEnd, Spares, MarkerStarts;
    var n := ScanLength(a, s, inWord);
    if n > 0 {
      ScanHasRoom(a, s, inWord);
      EndStaysWhole(a, s, inWord, n);
    } else if !inWord && MarkerStarts(a, s) {
      ScanSparesMarkers(a, s);
    }
  }

  lemma ScanIsFair(a: Alphabet)
    requires Latin(a)
    ensures Fair(a, ScanRule(a))
  {
    hide Latin, FairAt;
    forall s: string, inWord ensures FairAt(a, ScanRule(a), s, inWord) {
      ScanIsFairAt(a, s, inWord);
    }
  }

  // ------------------------------------------------------------ the ends that are cut off

  lemma {:induction false} SlashesCut(a: Alphabet, s: string)
    requires Latin(a)
    ensures Slashes(a, s) <= s && forall i | |Slashes(a, s)| <= i < |s| :: !a.isWord(s[i])
  {
    if s != "" && (a.unicode.isSpace(s[|s| - 1]) || s[|s| - 1] == '/') {
      SlashesCut(a, s[..|s| - 1]);
    }
  }

  lemma {:induction false} DashesCut(a: Alphabet, s: string)
    requires Latin(a)
    ensures Dashes(a, s) <= s && forall i | |Dashes(a, s)| <= i < |s| :: !a.isWord(s[i])
  {
    if s != "" && (a.unicode.isSpace(s[|s| - 1]) || s[|s| - 1] == '-') {
      DashesCut(a, s[..|s| - 1]);
    }
  }

  lemma SlashesPay(a: Alphabet, s: string)
    requires Latin(a)
    ensures Pays(a, s, Slashes(a, s))
  {
    SlashesCut(a, s);
    assert s[..|Slashes(a, s)|] == Slashes(a, s);
    CutLosesNothing(a, s, |Slashes(a, s)|, |s|);
  }

  lemma GCodePays(a: Alphabet, s: string)
    requires Latin(a)
    ensures Pays(a, s, GCode(a, s)) && GCode(a, s) <= s
  {
    var g := |s| - TrailingDigits(a.unicode.isDigit, s) - 1;
    if GCode(a, s) != s {
      DashesCut(a, s[..g]);
      var c := |Dashes(a, s[..g])|;
      assert forall i | c <= i < g :: !a.isWord(s[i]);
      CutLosesNothing(a, s, c, g);
      assert s[..c] == s[..g][..c] == GCode(a, s);
    }
  }

  // ------------------------------------------------------------ every rule set reaches its fixpoint

  lemma DeletePays(a: Alphabet, url: bool, scanGroups: bool, s: string)
    requires Latin(a)
    ensures Pays(a, s, Delete(a, url, scanGroups, s))
  {
    hide Pays;
    var u := if url then Strip(a, UrlRule(a), s, false) else s;
    var g := if scanGroups then Strip(a, ScanRule(a), u, false) else u;
    UrlIsFair(a);
    ScanIsFair(a);
    StripPays(a, UrlRule(a), s);
    StripPays(a, ScanRule(a), u);
    NothingPays(a, s);
    NothingPays(a, u);
    PaysInTurn(a, s, u, g);
    SlashesPay(a, g);
    PaysInTurn(a, s, g, Slashes(a, g));
    GCodePays(a, Slashes(a, g));
    PaysInTurn(a, s, Slashes(a, g), GCode(a, Slashes(a, g)));
  }

  lemma DeleteShrinks(a: Alphabet, url: bool, scanGroups: bool, s: string)
    requires Latin(a)
    ensures Shrinks(Delete(a, url, scanGroups, s), s)
  {
    var u := if url then Strip(a, UrlRule(a), s, false) else s;
    var g := if scanGroups then Strip(a, ScanRule(a), u, false) else u;
    StripShrinks(a, UrlRule(a), s, false);
    StripShrinks(a, ScanRule(a), u, false);
    ShrinksTransitive(g, u, s);
    SlashesCut(a, g);
    GCodePays(a, Slashes(a, g));
    PrefixShrinks(Slashes(a, g), g);
    PrefixShrinks(GCode(a, Slashes(a, g)), Slashes(a, g));
    ShrinksTransitive(Slashes(a, g), g, s);
    ShrinksTransitive(GCode(a, Slashes(a, g)), Slashes(a, g), s);
  }

  lemma PrefixShrinks(t: string, s: string)
    requires t <= s
    ensures Shrinks(t, s)
  {
  }

  /** Whatever rules are on, the deleting rules meet the condition of the bound. */
  lemma EveryRuleSetIsBounded(a: Alphabet, url: bool, scanGroups: bool, brackets: bool, windowsSafe: bool)
    requires Latin(a)
    ensures Bounded(a, RuleSet(a, url, scanGroups, brackets, windowsSafe))
  {
    var r := RuleSet(a, url, scanGroups, brackets, windowsSafe);
    forall s: string ensures Shortens(r.delete(s), s) && Repaid(a, s, r.delete(s)) {
      var t := Repaired(s);
      RepairPays(a, s);
      DeleteShrinks(a, url, scanGroups, t);
      DeletePays(a, url, scanGroups, t);
      PaysInTurn(a, s, t, Delete(a, url, scanGroups, t));
      PaysIsRepaid(a, s, Delete(a, url, scanGroups, t));
    }
  }

  /** For every rule set, cleaning ends within its bound, in a text that the pass leaves as it is, so that cleaning again
      changes nothing. */
  lemma EveryRuleSetIsIdempotent(a: Alphabet, url: bool, scanGroups: bool, brackets: bool, windowsSafe: bool, text: string)
    requires Latin(a)
    ensures var r := RuleSet(a, url, scanGroups, brackets, windowsSafe);
      var cleaned := Sanitized(a, r, text);
      Pass(a, r, cleaned) == cleaned == Sanitized(a, r, cleaned) && Settled(a, r, cleaned)
  {
    var r := RuleSet(a, url, scanGroups, brackets, windowsSafe);
    EveryRuleSetIsBounded(a, url, scanGroups, brackets, windowsSafe);
    SanitizedIsFixed(a, r, text);
    CleaningIsIdempotent(a, r, text);
  }

  /** `sanitize` with the rules as they are. */
  method SanitizeName(a: Alphabet, url: bool, scanGroups: bool, brackets: bool, windowsSafe: bool, text: string)
    returns (cleaned: string)
    requires Latin(a)
    ensures var r := RuleSet(a, url, scanGroups, brackets, windowsSafe);
      cleaned == Sanitized(a, r, text) == Pass(a, r, cleaned)
  {
    EveryRuleSetIsBounded(a, url, scanGroups, brackets, windowsSafe);
    cleaned := Cleaning.Sanitize(a, RuleSet(a, url, scanGroups, brackets, windowsSafe), text);
  }

  // ------------------------------------------------------------ a pass of these rules can lengthen the text

  lemma PlainHasNoUrl(a: Alphabet, s: string, inWord: bool)
    requires '.' !in s && ':' !in s
    ensures UrlLength(a, s, inWord) == 0
  {
    MissingCharacter(a, s, "https://", 5);
    MissingCharacter(a, s, "http://", 4);
    MissingCharacter(a, s, "www.", 3);
  }

  lemma MissingCharacter(a: Alphabet, s: string, w: string, i: nat)
    requires i < |w| && !IsLetter(w[i]) && w[i] !in s
    ensures !Starts(a, s, w)
  {
  }

  lemma NoScanWithoutA(a: Alphabet, s: string, inWord: bool)
    requires forall i | 0 <= i < |s| :: !Matches(a, s[i], 'a')
    ensures ScanLength(a, s, inWord) == 0
  {
    ScanWords();
    NoClosingWithoutA(a, s, "scan");
    NoClosingWithoutA(a, s, "scanner");
    NoClosingWithoutA(a, s, "scanlation");
  }

  lemma NoClosingWithoutA(a: Alphabet, s: string, w: string)
    requires IsScanWord(w) && forall i | 0 <= i < |s| :: !Matches(a, s[i], 'a')
    ensures LastClosing(a, s, w, Run(a, s)) == 0
  {
    forall j | 0 <= j <= Run(a, s) ensures Closing(a, s[j..], w) == 0 {
      assert |s[j..]| > 2 ==> s[j..][2] == s[j + 2] && !Matches(a, s[j..][2], 'a');
    }
  }

  /** `host.com/( ` */
  predicate SiteThenSpace(a: Alphabet, s: string, h: nat) {
    && 0 < h && |s| > h + 6 && s[h] == '.' && s[h + 1] == 'c' && s[h + 2] == 'o' && s[h + 3] == 'm'
    && s[h + 4] == '/' && s[h + 5] == '(' && a.unicode.isSpace(s[h + 6])
    && forall i | 0 <= i < h :: a.isWord(s[i])
  }

  /** No scheme and no `www.` starts where a host ends at the dot. */
  lemma HostIsNoPrefix(a: Alphabet, s: string, h: nat, prefix: string, c: nat)
    requires Latin(a) && h < |s| && s[h] == '.' && forall i | 0 <= i < h :: a.isWord(s[i])
    requires c < |prefix| && prefix[c] in {':', '.'} && (h < |prefix| ==> prefix[h] != '.')
    ensures !Starts(a, s, prefix)
  {
    if h < |prefix| {
      assert !Matches(a, s[h], prefix[h]);
    } else {
      assert !Matches(a, s[c], prefix[c]);
    }
  }

  lemma SolidParenthesis(a: Alphabet, s: string)
    requires Latin(a) && |s| > 1 && s[0] == '(' && a.unicode.isSpace(s[1])
    ensures Solid(a, s) == 1
  {
    assert s[1..][0] == s[1];
    assert Solid(a, s[1..]) == 0;
  }

  lemma ComEnding(a: Alphabet, s: string, endings: seq<string>)
    requires |s| >= 3 && s[0] == 'c' && s[1] == 'o' && s[2] == 'm' && endings != [] && endings[0] == "com"
    ensures Ending(a, s, endings) == 3
  {
  }

  lemma RunEnds(a: Alphabet, s: string, h: nat)
    requires Latin(a) && h < |s| && s[h] == '.' && forall i | 0 <= i < h :: a.isWord(s[i])
    ensures Run(a, s) == h
  {
    RunExtends(a, s, h);
    assert s[h..][0] == '.';
  }

  /** The match at the start of such a text ends before the space. */
  lemma SiteEndsAtSpace(a: Alphabet, s: string, h: nat, endings: seq<string>)
    requires Latin(a) && SiteThenSpace(a, s, h) && endings != [] && endings[0] == "com"
    ensures Site(a, s, false, endings) == h + 6
  {
    hide Latin, Ending, Starts, Run, Solid;
    RunEnds(a, s, h);
    ComEnding(a, s[h + 1..], endings);
    SolidParenthesis(a, s[h + 5..]);
  }

  lemma UrlEndsAtSpace(a: Alphabet, s: string, h: nat)
    requires Latin(a) && SiteThenSpace(a, s, h) && h < 3
    ensures UrlLength(a, s, false) == h + 6
  {
    hide Starts, Latin, Site;
    HostIsNoPrefix(a, s, h, "https://", 5);
    HostIsNoPrefix(a, s, h, "http://", 4);
    HostIsNoPrefix(a, s, h, "www.", 3);
    SiteEndsAtSpace(a, s, h, URL_ENDINGS);
  }

  /** What is left after the match: ` marker)word`, where no rule finds anything more. */
  lemma NothingElseDeleted(a: Alphabet, scanGroups: bool, w: string, f: string)
    requires Latin(a) && IsMarker(a, w) && AllWord(a, f) && f != "" && !a.unicode.isDigit(f[|f| - 1])
    requires forall i | 0 <= i < |f| :: !Matches(a, f[i], 'a')
    ensures var t := " " + w + ")" + f;
      && (forall inWord :: Strip(a, UrlRule(a), t, inWord) == t)
      && GCode(a, Slashes(a, if scanGroups then Strip(a, ScanRule(a), t, false) else t)) == t
  {
    hide Latin, MarkerLetter, IsMarker, AllWord;
    var t := " " + w + ")" + f;
    MarkerChars(a, w);
    forall i | 0 <= i < |t| ensures Harmless(a, t[i]) {
      WordOrSpace(a, w, f, i);
    }
    NoRuleApplies(a, t);
    assert t[|t| - 1] == f[|f| - 1];
    EndsInWord(a, t, f);
  }

  lemma EndsInWord(a: Alphabet, t: string, f: string)
    requires Latin(a) && f != "" && AllWord(a, f) && t != "" && t[|t| - 1] == f[|f| - 1]
    requires !a.unicode.isDigit(f[|f| - 1])
    ensures GCode(a, Slashes(a, t)) == t
  {
  }

  lemma NoRuleApplies(a: Alphabet, t: string)
    requires forall i | 0 <= i < |t| :: Harmless(a, t[i])
    ensures Strip(a, ScanRule(a), t, false) == t
    ensures forall inWord :: Strip(a, UrlRule(a), t, inWord) == t
  {
    forall i, g | 0 <= i <= |t| ensures ScanRule(a)(t[i..], g) == 0 && UrlRule(a)(t[i..], g) == 0 {
      var u := t[i..];
      assert forall j | 0 <= j < |u| :: u[j] == t[i + j];
      NoScanWithoutA(a, u, g);
      PlainHasNoUrl(a, u, g);
    }
    StripNothing(a, ScanRule(a), t, false);
    forall inWord ensures Strip(a, UrlRule(a), t, inWord) == t {
      StripNothing(a, UrlRule(a), t, inWord);
    }
  }

  /** No dot, colon or `a`. */
  predicate Harmless(a: Alphabet, c: char) {
    c !in {'.', ':'} && !Matches(a, c, 'a')
  }

  lemma MarkerLetterIsHarmless(a: Alphabet, c: char)
    requires Latin(a) && MarkerLetter(a, c)
    ensures Harmless(a, c)
  {
    hide MarkerLetter;
    assert a.isWord(c);
    if Matches(a, c, 'a') {
      ForeignIsNoMarkerLetter(a, c, 'a');
    }
  }

  lemma NonWordIsHarmless(a: Alphabet, c: char)
    requires Latin(a) && !a.isWord(c) && c !in {'.', ':'}
    ensures Harmless(a, c)
  {
  }

  lemma WordOrSpace(a: Alphabet, w: string, f: string, i: nat)
    requires Latin(a) && (forall k | 0 <= k < |w| :: MarkerLetter(a, w[k])) && AllWord(a, f)
    requires (forall k | 0 <= k < |f| :: !Matches(a, f[k], 'a')) && i < |" " + w + ")" + f|
    ensures Harmless(a, (" " + w + ")" + f)[i])
  {
    hide MarkerLetter;
    var c := (" " + w + ")" + f)[i];
    if i == 0 || i == |w| + 1 {
      assert c in {' ', ')'};
      NonWordIsHarmless(a, c);
    } else if i <= |w| {
      assert c == w[i - 1];
      MarkerLetterIsHarmless(a, c);
    } else {
      assert c == f[i - |w| - 2];
      assert a.isWord(c);
    }
  }

  /** `host.com/( marker)word`, with a host of one or two characters: the URL rule takes the parenthesis with the address,
      the marker sticks to the word, and the pass adds it again, so the text gets longer. */
  lemma AUrlCanLengthen(a: Alphabet, scanGroups: bool, windowsSafe: bool, host: string, w: string, f: string)
    requires Latin(a) && 0 < |host| < 3 && forall i | 0 <= i < |host| :: a.isWord(host[i])
    requires IsMarker(a, w) && AllWord(a, f) && f != "" && !a.unicode.isDigit(f[|f| - 1])
    requires (forall i | 0 <= i < |f| :: !Matches(a, f[i], 'a')) && Repaired(f) == f
    ensures var text := host + ".com/" + ("( " + w + ")" + f);
      |Pass(a, RuleSet(a, true, scanGroups, true, windowsSafe), text)| > |text|
  {
    hide IsMarker, AllWord, Latin, SaneAlphabet, Pass, RuleSet, Repaired, Matches;
    var p := host + ".com/";
    var text := p + ("( " + w + ")" + f);
    SiteIsDeleted(a, scanGroups, windowsSafe, host, w, f, text);
    forall i | 0 <= i < |p| ensures p[i] !in {'[', '('} {
      HostCharacter(a, host, i);
    }
    SaneLatin(a);
    APassCanLengthen(a, RuleSet(a, true, scanGroups, true, windowsSafe), p, w, f);
  }

  lemma SiteIsDeleted(a: Alphabet, scanGroups: bool, windowsSafe: bool, host: string, w: string, f: string, text: string)
    requires Latin(a) && 0 < |host| < 3 && forall i | 0 <= i < |host| :: a.isWord(host[i])
    requires IsMarker(a, w) && AllWord(a, f) && f != "" && !a.unicode.isDigit(f[|f| - 1])
    requires (forall i | 0 <= i < |f| :: !Matches(a, f[i], 'a')) && Repaired(f) == f
    requires text == host + ".com/" + ("( " + w + ")" + f)
    ensures var r := RuleSet(a, true, scanGroups, true, windowsSafe); r.brackets && r.delete(text) == " " + w + ")" + f
  {
    hide IsMarker, AllWord, Latin, Delete, Repaired, Matches;
    ParenthesisFirst(w, f);
    NothingRepaired(a, host, w, f, text);
    DeletedParenthesis(a, scanGroups, host, w, f, text);
  }

  lemma ParenthesisFirst(w: string, f: string)
    ensures "(" + (" " + w + ")" + f) == "( " + w + ")" + f
  {
  }

  lemma NoRunInAddress(text: string, h: nat, i: nat)
    requires 0 < h < 3 && i < h + 7 <= |text| && text[h] == '.' && text[h + 2] == 'o' && text[h + 3] == 'm'
    requires text[h + 4] == '/' && text[h + 5] == '(' && text[h + 6] == ' '
    ensures NoRun(text[i..])
  {
    var k := if i <= h then h else if i == h + 1 then h + 2 else i;
    assert text[i..][k - i] == text[k] && !IsHex(text[k]);
  }

  lemma AddressShape(host: string, w: string, f: string, text: string)
    requires |w| == MARKER_LENGTH && text == host + ".com/" + ("( " + w + ")" + f)
    ensures var h := |host|;
      && |text| == h + 18 + |f| && text[h] == '.' && text[h + 2] == 'o' && text[h + 3] == 'm' && text[h + 4] == '/'
      && text[h + 5] == '(' && text[h + 6] == ' ' && text[h + 7..][..MARKER_LENGTH] == w && text[h + 17] == ')'
      && text[h + 18..] == f
  {
    assert text == host + ".com/( " + w + ")" + f;
  }

  /** No run of hex digits before `f` is long enough for the repair. */
  lemma NothingRepaired(a: Alphabet, host: string, w: string, f: string, text: string)
    requires Latin(a) && 0 < |host| < 3 && IsMarker(a, w) && Repaired(f) == f
    requires text == host + ".com/" + ("( " + w + ")" + f)
    ensures Repaired(text) == text
  {
    hide Latin, NoRun, Repaired, IsHex;
    var h := |host|;
    AddressShape(host, w, f, text);
    BracketIsNoWord(a);
    var m := text[h + 7..];
    assert m[MARKER_LENGTH] == text[h + 17] && MarkerStarts(a, m);
    forall i | 0 <= i < h + 17 ensures NoRun(text[i..]) {
      if i < h + 7 {
        NoRunInAddress(text, h, i);
      } else {
        NoRunInMarker(a, m, i - h - 7);
        assert m[i - h - 7..] == text[i..];
      }
    }
    PrefixIsKept(text, h + 17);
    var rest := text[h + 17..];
    assert rest[0] == ')' && rest[1..] == f;
    ParenthesisIsKept(rest);
    assert text == text[..h + 17] + rest && rest == [')'] + f;
  }

  lemma ParenthesisIsKept(s: string)
    requires s != "" && s[0] == ')'
    ensures Repaired(s) == [s[0]] + Repaired(s[1..])
  {
    hide Repaired;
    assert !IsHex(s[0]);
    NoRunIsKept(s);
  }

  lemma BracketIsNoWord(a: Alphabet)
    requires Latin(a)
    ensures !a.isWord(')')
  {
  }

  lemma SaneLatin(a: Alphabet)
    requires Latin(a)
    ensures SaneAlphabet(a)
  {
  }

  lemma HostCharacter(a: Alphabet, host: string, i: nat)
    requires Latin(a) && (forall k | 0 <= k < |host| :: a.isWord(host[k])) && i < |host + ".com/"|
    ensures (host + ".com/")[i] !in {'[', '('}
  {
    var c := (host + ".com/")[i];
    assert i < |host| ==> c == host[i];
  }

  lemma DeletedParenthesis(a: Alphabet, scanGroups: bool, host: string, w: string, f: string, text: string)
    requires Latin(a) && 0 < |host| < 3 && forall i | 0 <= i < |host| :: a.isWord(host[i])
    requires IsMarker(a, w) && AllWord(a, f) && f != "" && !a.unicode.isDigit(f[|f| - 1])
    requires forall i | 0 <= i < |f| :: !Matches(a, f[i], 'a')
    requires text == host + ".com/" + ("(" + (" " + w + ")" + f))
    ensures Delete(a, true, scanGroups, text) == " " + w + ")" + f
  {
    hide IsMarker, AllWord, GCode, UrlLength, Latin;
    var t, n := " " + w + ")" + f, |host| + 6;
    HostThenSpace(a, host, t, text);
    UrlEndsAtSpace(a, text, |host|);
    NothingElseDeleted(a, scanGroups, w, f);
    assert UrlRule(a)(text, false) == n;
    assert Strip(a, UrlRule(a), text, false) == Strip(a, UrlRule(a), t, a.isWord(text[n - 1]));
  }

  lemma HostThenSpace(a: Alphabet, host: string, t: string, text: string)
    requires Latin(a) && host != "" && forall i | 0 <= i < |host| :: a.isWord(host[i])
    requires t != "" && t[0] == ' ' && text == host + ".com/" + ("(" + t)
    ensures SiteThenSpace(a, text, |host|) && text[|host| + 6..] == t
  {
    assert text == host + ".com/(" + t;
  }

  /** The shortest such text: `a.com/( uncensored)foo`. */
  lemma ShortUrlLengthens(a: Alphabet, scanGroups: bool, windowsSafe: bool)
    requires Latin(a) && !a.unicode.isDigit('o')
    ensures var text := "a.com/( uncensored)foo";
      |Pass(a, RuleSet(a, true, scanGroups, true, windowsSafe), text)| > |text|
  {
    hide Pass, RuleSet, AllWord, IsMarker, Latin;
    var host, f := "a", "foo";
    LetterIsWord(a, 'a');
    FooIsWord(a, f);
    FooIsKept(f);
    assert IsMarker(a, UNCENSORED) by { UncensoredIsMarker(a); }
    ShortText();
    AUrlCanLengthen(a, scanGroups, windowsSafe, host, UNCENSORED, f);
  }

  lemma ShortText()
    ensures "a.com/( uncensored)foo" == "a" + ".com/" + ("( " + UNCENSORED + ")" + "foo")
  {
  }

  lemma UncensoredIsMarker(a: Alphabet)
    ensures IsMarker(a, UNCENSORED)
  {
  }

  lemma FooIsWord(a: Alphabet, f: string)
    requires Latin(a) && f == "foo"
    ensures AllWord(a, f) && forall i | 0 <= i < |f| :: !Matches(a, f[i], 'a')
  {
    LetterIsWord(a, 'f');
    LetterIsWord(a, 'o');
  }

  lemma FooIsKept(f: string)
    requires f == "foo"
    ensures Repaired(f) == f
  {
    PrefixIsKept(f, 3);
    assert f[3..] == "" && f[..3] == f;
  }

  lemma LetterIsWord(a: Alphabet, l: char)
    requires Latin(a) && IsLetter(l)
    ensures a.isWord(l) && (l != 'a' ==> !Matches(a, l, 'a'))
  {
    assert Matches(a, l, l);
    assert l != 'a' ==> !SameFold(a, l, 'a');
  }
}
