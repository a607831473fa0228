/**
 What the deleting rules take out, said of the text itself (scripts/cbz_core.py): which text is a URL, a scan-group word, a
 trailing slash and a G-code, and that a pass deletes those and nothing else.
 */
module DeletionMeanings {
  import opened BracketRules
  import opened CanonicalNumbers
  import opened Cleaning
  import opened DeletingRules
  import HexRepair
  import opened StandingMarkers

  /** `w` stands at `i`, letters up to case. */
  predicate Spelled(a: Alphabet, s: string, i: nat, w: string) {
    && i + |w| <= |s|
    && forall k | 0 <= k < |w| ::
         if 'a' <= w[k] <= 'z' then a.unicode.fold(s[i + k]) == a.unicode.fold(w[k]) else s[i + k] == w[k]
  }

  /** From `i` there is no space up to `n`, where one is or the text ends. */
  predicate NoSpaceUpTo(a: Alphabet, s: string, i: nat, n: nat) {
    && i <= n <= |s| && (forall k | i <= k < n :: !a.unicode.isSpace(s[k]))
    && (n < |s| ==> a.unicode.isSpace(s[n]))
  }

  /** Letters, digits, underscores and hyphens. */
  predicate HostChars(a: Alphabet, s: string, h: nat) {
    h <= |s| && forall k | 0 <= k < h :: a.isWord(s[k]) || s[k] == '-'
  }

  /** A word starts or ends here. */
  predicate WordEdge(a: Alphabet, s: string, inWord: bool) {
    inWord <==> !(s != "" && a.isWord(s[0]))
  }

  // ------------------------------------------------------------ URLs

  /** `http://`, `https://` or `www.`, and at least one character up to the next space. */
  predicate IsLink(a: Alphabet, s: string, n: nat) {
    exists w | w in {"http://", "https://", "www."} :: Spelled(a, s, 0, w) && |w| < n && NoSpaceUpTo(a, s, |w|, n)
  }

  /** The endings of `_URL_RE`; the first that fits counts. */
  const KNOWN_ENDINGS := ["com", "net", "org", "io", "co", "info", "biz", "tv", "me", "cc", "us", "uk", "ca", "au"]

  predicate EndsHost(a: Alphabet, s: string, i: nat, endings: seq<string>, j: nat) {
    j < |endings| && Spelled(a, s, i, endings[j]) && forall k | 0 <= k < j :: !Spelled(a, s, i, endings[k])
  }

  /** A host of word characters and hyphens, a dot, a known ending, and after a slash everything up to the next space. */
  predicate IsSite(a: Alphabet, s: string, inWord: bool, endings: seq<string>, n: nat, h: nat, j: nat) {
    && WordEdge(a, s, inWord) && 0 < h < |s| && HostChars(a, s, h) && s[h] == '.'
    && EndsHost(a, s, h + 1, endings, j)
    && var e := h + 1 + |endings[j]|;
       if e < |s| && s[e] == '/' then NoSpaceUpTo(a, s, e + 1, n) else n == e
  }

  lemma SpelledIsStarts(a: Alphabet, s: string, i: nat, w: string)
    requires i <= |s|
    ensures Spelled(a, s, i, w) <==> Starts(a, s[i..], w)
  {
  }

  lemma {:induction false} SolidIs(a: Alphabet, s: string, i: nat, n: nat)
    requires NoSpaceUpTo(a, s, i, n)
    ensures Solid(a, s[i..]) == n - i
    decreases n - i
  {
    if i < n {
      assert s[i..][1..] == s[i + 1..];
      SolidIs(a, s, i + 1, n);
    }
  }

  lemma {:induction false} SolidReaches(a: Alphabet, s: string, i: nat)
    requires i <= |s|
    ensures i + Solid(a, s[i..]) <= |s| && NoSpaceUpTo(a, s, i, i + Solid(a, s[i..]))
    decreases |s| - i
  {
    if i < |s| && !a.unicode.isSpace(s[i]) {
      assert s[i..][1..] == s[i + 1..];
      SolidReaches(a, s, i + 1);
    }
  }

  lemma PrefixedExactly(a: Alphabet, s: string, w: string)
    ensures var n := Prefixed(a, s, w);
      && (n > 0 ==> Spelled(a, s, 0, w) && |w| < n && NoSpaceUpTo(a, s, |w|, n))
      && forall m: nat | Spelled(a, s, 0, w) && |w| < m && NoSpaceUpTo(a, s, |w|, m) :: n == m
  {
    assert s[0..] == s;
    SpelledIsStarts(a, s, 0, w);
    if |w| <= |s| {
      SolidReaches(a, s, |w|);
      forall m: nat | NoSpaceUpTo(a, s, |w|, m) ensures Solid(a, s[|w|..]) == m - |w| {
        SolidIs(a, s, |w|, m);
      }
    }
  }

  lemma {:induction false} EndingExactly(a: Alphabet, s: string, i: nat, endings: seq<string>)
    requires i <= |s| && NoneEmpty(endings)
    ensures forall j: nat | EndsHost(a, s, i, endings, j) :: Ending(a, s[i..], endings) == |endings[j]|
    ensures Ending(a, s[i..], endings) > 0 ==> exists j: nat :: EndsHost(a, s, i, endings, j)
  {
    if endings != [] {
      SpelledIsStarts(a, s, i, endings[0]);
      EndingExactly(a, s, i, endings[1..]);
      forall j: nat | EndsHost(a, s, i, endings, j) ensures Ending(a, s[i..], endings) == |endings[j]| {
        if j > 0 {
          assert !Spelled(a, s, i, endings[0]);
          EndsLater(a, s, i, endings, j);
        }
      }
      if Starts(a, s[i..], endings[0]) {
        assert EndsHost(a, s, i, endings, 0);
      } else if Ending(a, s[i..], endings) > 0 {
        var j: nat :| EndsHost(a, s, i, endings[1..], j);
        EndsLater(a, s, i, endings, j + 1);
      }
    }
  }

  lemma EndsLater(a: Alphabet, s: string, i: nat, endings: seq<string>, j: nat)
    requires endings != [] && !Spelled(a, s, i, endings[0]) && j > 0
    ensures EndsHost(a, s, i, endings, j) <==> EndsHost(a, s, i, endings[1..], j - 1)
  {
    forall k | 0 <= k < |endings| - 1 ensures endings[1..][k] == endings[k + 1] {
    }
    if j < |endings| && EndsHost(a, s, i, endings[1..], j - 1) {
      forall k | 0 <= k < j ensures !Spelled(a, s, i, endings[k]) {
        assert k > 0 ==> endings[k] == endings[1..][k - 1];
      }
    }
    if EndsHost(a, s, i, endings, j) {
      forall k | 0 <= k < j - 1 ensures !Spelled(a, s, i, endings[1..][k]) {
        assert endings[1..][k] == endings[k + 1];
      }
    }
  }

  lemma RunIs(a: Alphabet, s: string, h: nat)
    requires HostChars(a, s, h) && (h < |s| ==> !a.isWord(s[h]) && s[h] != '-')
    ensures Run(a, s) == h
    decreases |s|
  {
    if h > 0 {
      forall k | 0 <= k < h - 1 ensures a.isWord(s[1..][k]) || s[1..][k] == '-' {
        assert s[1..][k] == s[k + 1];
      }
      RunIs(a, s[1..], h - 1);
    }
  }

  lemma {:induction false} RunReaches(a: Alphabet, s: string)
    ensures HostChars(a, s, Run(a, s))
  {
    if s != "" && (a.isWord(s[0]) || s[0] == '-') {
      RunReaches(a, s[1..]);
      forall k | 0 <= k < Run(a, s) ensures a.isWord(s[k]) || s[k] == '-' {
        assert k > 0 ==> s[k] == s[1..][k - 1];
      }
    }
  }

  predicate NoneEmpty(endings: seq<string>) {
    forall k | 0 <= k < |endings| :: endings[k] != ""
  }

  lemma EndFits(a: Alphabet, s: string, i: nat, endings: seq<string>, j: nat)
    requires EndsHost(a, s, i, endings, j)
    ensures j < |endings| && i + |endings[j]| <= |s|
  {
  }

  /** What the rule takes at a site it finds is the site. */
  lemma FoundIsSite(a: Alphabet, s: string, inWord: bool, endings: seq<string>)
    requires NoneEmpty(endings) && Site(a, s, inWord, endings) > 0
    ensures exists h: nat, j: nat :: IsSite(a, s, inWord, endings, Site(a, s, inWord, endings), h, j)
  {
    hide Ending, Run, Solid, EndsHost, HostChars, NoSpaceUpTo;
    var n, h := Site(a, s, inWord, endings), Run(a, s);
    RunReaches(a, s);
    EndingExactly(a, s, h + 1, endings);
    var j: nat :| EndsHost(a, s, h + 1, endings, j);
    EndFits(a, s, h + 1, endings, j);
    var e := h + 1 + |endings[j]|;
    if e < |s| {
      SolidReaches(a, s, e + 1);
    }
    assert WordEdge(a, s, inWord);
    assert IsSite(a, s, inWord, endings, n, h, j);
  }

  /** A site is what the rule takes. */
  lemma SiteIsFound(a: Alphabet, s: string, inWord: bool, endings: seq<string>, n: nat, h: nat, j: nat)
    requires NoneEmpty(endings) && !a.isWord('.') && IsSite(a, s, inWord, endings, n, h, j)
    ensures Site(a, s, inWord, endings) == n > 0
  {
    hide Ending, Spelled, Run, Solid;
    RunIs(a, s, h);
    EndingExactly(a, s, h + 1, endings);
    var e := h + 1 + |endings[j]|;
    if e < |s| && s[e] == '/' {
      SolidIs(a, s, e + 1, n);
    }
  }

  lemma SiteExactly(a: Alphabet, s: string, inWord: bool, endings: seq<string>)
    requires NoneEmpty(endings) && !a.isWord('.')
    ensures var n := Site(a, s, inWord, endings);
      && (n > 0 ==> exists h: nat, j: nat :: IsSite(a, s, inWord, endings, n, h, j))
      && forall m: nat, h: nat, j: nat | IsSite(a, s, inWord, endings, m, h, j) :: n == m
  {
    hide Site, IsSite;
    if Site(a, s, inWord, endings) > 0 {
      FoundIsSite(a, s, inWord, endings);
    }
    forall m: nat, h: nat, j: nat | IsSite(a, s, inWord, endings, m, h, j) ensures Site(a, s, inWord, endings) == m {
      SiteIsFound(a, s, inWord, endings, m, h, j);
    }
  }

  /** What the URL rule deletes at a text: a link, or else a site. */
  ghost predicate IsUrl(a: Alphabet, s: string, inWord: bool, n: nat) {
    || IsLink(a, s, n)
    || ((forall m: nat :: !IsLink(a, s, m)) && exists h: nat, j: nat :: IsSite(a, s, inWord, KNOWN_ENDINGS, n, h, j))
  }

  lemma LinkIsTaken(a: Alphabet, s: string, inWord: bool)
    requires Latin(a)
    ensures forall n: nat | IsLink(a, s, n) :: UrlLength(a, s, inWord) == n
    ensures (forall n: nat :: !IsLink(a, s, n)) ==> UrlLength(a, s, inWord) == Site(a, s, inWord, URL_ENDINGS)
  {
    hide Spelled, NoSpaceUpTo, Prefixed, Site;
    PrefixedExactly(a, s, "https://");
    PrefixedExactly(a, s, "http://");
    PrefixedExactly(a, s, "www.");
    LinksAgree(a, s);
    assert Prefixed(a, s, "https://") > 0 ==> IsLink(a, s, Prefixed(a, s, "https://"));
    assert Prefixed(a, s, "http://") > 0 ==> IsLink(a, s, Prefixed(a, s, "http://"));
    assert Prefixed(a, s, "www.") > 0 ==> IsLink(a, s, Prefixed(a, s, "www."));
  }

  lemma UrlExactly(a: Alphabet, s: string, inWord: bool, n: nat)
    requires Latin(a) && n > 0
    ensures UrlRule(a)(s, inWord) == n <==> IsUrl(a, s, inWord, n)
  {
    hide UrlLength, Site, IsSite, IsLink;
    LinkIsTaken(a, s, inWord);
    SameEndings();
    SiteExactly(a, s, inWord, KNOWN_ENDINGS);
  }

  lemma SameEndings()
    ensures URL_ENDINGS == KNOWN_ENDINGS && NoneEmpty(KNOWN_ENDINGS)
  {
  }

  /** A text has one link at its start. */
  lemma LinksAgree(a: Alphabet, s: string)
    requires Latin(a)
    ensures forall m: nat, n: nat | IsLink(a, s, m) && IsLink(a, s, n) :: m == n
  {
    forall m: nat, n: nat | IsLink(a, s, m) && IsLink(a, s, n) ensures m == n {
      OneLink(a, s, m, n);
    }
  }

  lemma OneLink(a: Alphabet, s: string, m: nat, n: nat)
    requires Latin(a) && IsLink(a, s, m) && IsLink(a, s, n)
    ensures m == n
  {
    var v :| v in {"http://", "https://", "www."} && Spelled(a, s, 0, v) && |v| < m && NoSpaceUpTo(a, s, |v|, m);
    var w :| w in {"http://", "https://", "www."} && Spelled(a, s, 0, w) && |w| < n && NoSpaceUpTo(a, s, |w|, n);
    assert !SameFold(a, 'h', 'w');
    assert v[0] == w[0];
  }

  // ------------------------------------------------------------ scan groups

  /** Up to `n` there are host characters, then `w`, perhaps an `s`, and a word ends. */
  predicate EndsInWord(a: Alphabet, s: string, w: string, n: nat, j: nat) {
    && HostChars(a, s, j) && Spelled(a, s, j, w)
    && (n == j + |w| || (n == j + |w| + 1 && Spelled(a, s, j + |w|, "s")))
    && (n < |s| ==> !a.isWord(s[n]))
  }

  ghost predicate ScanEnd(a: Alphabet, s: string, w: string, n: nat) {
    exists j: nat :: EndsInWord(a, s, w, n, j)
  }

  /** The last such place. */
  ghost predicate LastScanEnd(a: Alphabet, s: string, w: string, n: nat) {
    ScanEnd(a, s, w, n) && forall m: nat | ScanEnd(a, s, w, m) :: m <= n
  }

  /** What the scan-group rule deletes at a text: up to the last place where `scan` closes a word; without such a place
      `scanner` counts, and then `scanlation`. */
  ghost predicate IsScanGroup(a: Alphabet, s: string, inWord: bool, n: nat) {
    && WordEdge(a, s, inWord)
    && (|| LastScanEnd(a, s, "scan", n)
        || ((forall m: nat :: !ScanEnd(a, s, "scan", m))
            && (|| LastScanEnd(a, s, "scanner", n)
                || ((forall m: nat :: !ScanEnd(a, s, "scanner", m)) && LastScanEnd(a, s, "scanlation", n)))))
  }

  lemma LetterSpelled(a: Alphabet, s: string, i: nat)
    requires i < |s|
    ensures Spelled(a, s, i, "s") <==> Matches(a, s[i], 's')
  {
    assert "s"[0] == 's';
  }

  lemma ClosingExactly(a: Alphabet, s: string, w: string, j: nat)
    requires w != "" && j <= |s| && HostChars(a, s, j)
    ensures var n := Closing(a, s[j..], w);
      && (n > 0 ==> EndsInWord(a, s, w, j + n, j))
      && forall m: nat | EndsInWord(a, s, w, m, j) :: n > 0 && m <= j + n
  {
    SpelledIsStarts(a, s, j, w);
    var t := s[j..];
    if |w| < |t| {
      LetterSpelled(a, s, j + |w|);
    }
    if |w| + 1 < |t| {
      assert t[|w| + 1] == s[j + |w| + 1];
    }
  }

  lemma EndFound(a: Alphabet, s: string, w: string, n: nat, j: nat)
    requires EndsInWord(a, s, w, n, j)
    ensures ScanEnd(a, s, w, n)
  {
  }

  lemma LastStep(a: Alphabet, s: string, w: string, k: nat)
    requires k <= |s|
    ensures LastClosing(a, s, w, k) ==
      if Closing(a, s[k..], w) > 0 then k + Closing(a, s[k..], w) else if k == 0 then 0 else LastClosing(a, s, w, k - 1)
  {
  }

  lemma {:induction false} LastClosingEnds(a: Alphabet, s: string, w: string, k: nat)
    requires w != "" && k <= |s| && HostChars(a, s, k) && LastClosing(a, s, w, k) > 0
    ensures ScanEnd(a, s, w, LastClosing(a, s, w, k))
    decreases k
  {
    hide Closing, EndsInWord, Spelled, HostChars, ScanEnd, LastClosing;
    ClosingExactly(a, s, w, k);
    LastStep(a, s, w, k);
    if Closing(a, s[k..], w) > 0 {
      EndFound(a, s, w, LastClosing(a, s, w, k), k);
    } else if k > 0 {
      FewerHostChars(a, s, k);
      LastClosingEnds(a, s, w, k - 1);
    }
  }

  lemma {:induction false} LastClosingIsLast(a: Alphabet, s: string, w: string, k: nat, m: nat, j: nat)
    requires w != "" && k <= |s| && HostChars(a, s, k) && j <= k && EndsInWord(a, s, w, m, j)
    ensures LastClosing(a, s, w, k) > 0 && m <= LastClosing(a, s, w, k)
    decreases k
  {
    hide Closing, EndsInWord, Spelled, HostChars;
    ClosingExactly(a, s, w, k);
    EarlierEnds(a, s, w, m, j);
    if Closing(a, s[k..], w) == 0 && k > 0 {
      FewerHostChars(a, s, k);
      LastClosingIsLast(a, s, w, k - 1, m, j);
    }
  }

  lemma FewerHostChars(a: Alphabet, s: string, k: nat)
    requires k > 0 && HostChars(a, s, k)
    ensures HostChars(a, s, k - 1)
  {
  }

  lemma EarlierEnds(a: Alphabet, s: string, w: string, m: nat, j: nat)
    requires EndsInWord(a, s, w, m, j)
    ensures m <= j + |w| + 1
  {
  }

  /** In a run of host characters the word stands within the run. */
  lemma WordIsInRun(a: Alphabet, s: string, w: string, n: nat, j: nat)
    requires EndsInWord(a, s, w, n, j)
    ensures j <= Run(a, s)
  {
    RunExceeds(a, s, j);
  }

  lemma {:induction false} RunExceeds(a: Alphabet, s: string, j: nat)
    requires HostChars(a, s, j)
    ensures j <= Run(a, s)
    decreases j
  {
    if j > 0 {
      forall k | 0 <= k < j - 1 ensures a.isWord(s[1..][k]) || s[1..][k] == '-' {
        assert s[1..][k] == s[k + 1];
      }
      RunExceeds(a, s[1..], j - 1);
    }
  }

  lemma ScanEndExactly(a: Alphabet, s: string, w: string)
    requires w != ""
    ensures var n := LastClosing(a, s, w, Run(a, s));
      (forall m: nat :: LastScanEnd(a, s, w, m) <==> 0 < m == n) && (n == 0 <==> forall m: nat :: !ScanEnd(a, s, w, m))
  {
    hide EndsInWord, LastClosing, Run;
    RunReaches(a, s);
    var n := LastClosing(a, s, w, Run(a, s));
    if n > 0 {
      LastClosingEnds(a, s, w, Run(a, s));
    }
    forall m: nat, j: nat | EndsInWord(a, s, w, m, j) ensures n > 0 && m <= n {
      WordIsInRun(a, s, w, m, j);
      LastClosingIsLast(a, s, w, Run(a, s), m, j);
    }
  }

  /** The first of the three lengths that is not 0. */
  lemma FirstOfThree(a: Alphabet, s: string, inWord: bool, n: nat, scan: nat, scanner: nat, scanlation: nat)
    requires (forall m: nat :: LastScanEnd(a, s, "scan", m) <==> 0 < m == scan)
          && (scan == 0 <==> forall m: nat :: !ScanEnd(a, s, "scan", m))
    requires (forall m: nat :: LastScanEnd(a, s, "scanner", m) <==> 0 < m == scanner)
          && (scanner == 0 <==> forall m: nat :: !ScanEnd(a, s, "scanner", m))
    requires forall m: nat :: LastScanEnd(a, s, "scanlation", m) <==> 0 < m == scanlation
    ensures IsScanGroup(a, s, inWord, n) <==>
      WordEdge(a, s, inWord) && 0 < n == if scan > 0 then scan else if scanner > 0 then scanner else scanlation
  {
    hide ScanEnd, LastScanEnd, WordEdge;
  }

  lemma ScanGroupExactly(a: Alphabet, s: string, inWord: bool, n: nat)
    requires n > 0
    ensures ScanRule(a)(s, inWord) == n <==> IsScanGroup(a, s, inWord, n)
  {
    hide ScanEnd, LastScanEnd, LastClosing, IsScanGroup;
    ScanEndExactly(a, s, "scan");
    ScanEndExactly(a, s, "scanner");
    ScanEndExactly(a, s, "scanlation");
    var r := Run(a, s);
    FirstOfThree(a, s, inWord, n, LastClosing(a, s, "scan", r), LastClosing(a, s, "scanner", r),
                 LastClosing(a, s, "scanlation", r));
  }

  // ------------------------------------------------------------ slashes and G-codes

  /** Slashes and whitespace at the end go, and nothing else. */
  lemma {:induction false} TrailingSlashesGo(a: Alphabet, x: string, tail: string)
    requires forall i | 0 <= i < |tail| :: a.unicode.isSpace(tail[i]) || tail[i] == '/'
    requires x != "" ==> !a.unicode.isSpace(x[|x| - 1]) && x[|x| - 1] != '/'
    ensures Slashes(a, x + tail) == x
  {
    if tail == "" {
      assert x + tail == x;
    } else {
      var init := tail[..|tail| - 1];
      assert (x + tail)[..|x + tail| - 1] == x + init;
      TrailingSlashesGo(a, x, init);
    }
  }

  lemma {:induction false} TrailingDashesGo(a: Alphabet, x: string, tail: string)
    requires forall i | 0 <= i < |tail| :: a.unicode.isSpace(tail[i]) || tail[i] == '-'
    requires x != "" ==> !a.unicode.isSpace(x[|x| - 1]) && x[|x| - 1] != '-'
    ensures Dashes(a, x + tail) == x
  {
    if tail == "" {
      assert x + tail == x;
    } else {
      var init := tail[..|tail| - 1];
      assert (x + tail)[..|x + tail| - 1] == x + init;
      TrailingDashesGo(a, x, init);
    }
  }

  /** The text ends in a `G` at a word's edge and three to five digits. */
  predicate EndsInGCode(a: Alphabet, s: string, g: nat) {
    && g < |s| && s[g] == 'G' && (g > 0 ==> !a.isWord(s[g - 1]))
    && 3 <= |s| - g - 1 <= 5 && forall i | g < i < |s| :: a.unicode.isDigit(s[i])
  }

  lemma {:induction false} TrailingDigitsAre(u: char -> bool, s: string, d: nat)
    requires d <= |s| && (forall i | |s| - d <= i < |s| :: u(s[i])) && (d < |s| ==> !u(s[|s| - d - 1]))
    ensures TrailingDigits(u, s) == d
    decreases d
  {
    if d > 0 {
      TrailingDigitsAre(u, s[..|s| - 1], d - 1);
    }
  }

  lemma {:induction false} TrailingDigitsReach(u: char -> bool, s: string)
    ensures forall i | |s| - TrailingDigits(u, s) <= i < |s| :: u(s[i])
  {
    if s != "" && u(s[|s| - 1]) {
      TrailingDigitsReach(u, s[..|s| - 1]);
    }
  }

  /** A G-code at the end goes with the spaces and hyphens before it. */
  lemma GCodeGoes(a: Alphabet, x: string, tail: string, digits: string)
    requires !a.unicode.isDigit('G') && 3 <= |digits| <= 5 && forall i | 0 <= i < |digits| :: a.unicode.isDigit(digits[i])
    requires forall i | 0 <= i < |tail| :: a.unicode.isSpace(tail[i]) || tail[i] == '-'
    requires x != "" ==> !a.unicode.isSpace(x[|x| - 1]) && x[|x| - 1] != '-'
    requires x + tail != "" ==> !a.isWord((x + tail)[|x + tail| - 1])
    ensures GCode(a, x + tail + "G" + digits) == x
  {
    var s := x + tail + "G" + digits;
    TrailingDigitsAre(a.unicode.isDigit, s, |digits|);
    assert s[|x + tail|] == 'G' && s[..|x + tail|] == x + tail;
    TrailingDashesGo(a, x, tail);
  }

  /** A text without a G-code at the end stays. */
  lemma WithoutGCode(a: Alphabet, s: string)
    requires forall g: nat :: !EndsInGCode(a, s, g)
    ensures GCode(a, s) == s
  {
    var g := |s| - TrailingDigits(a.unicode.isDigit, s) - 1;
    TrailingDigitsReach(a.unicode.isDigit, s);
    assert g >= 0 ==> !EndsInGCode(a, s, g);
  }

  // ------------------------------------------------------------ in a text

  /** Whether a word character stands before `i`. */
  predicate WordBefore(a: Alphabet, s: string, inWord: bool, i: nat)
    requires i <= |s|
  {
    if i == 0 then inWord else a.isWord(s[i - 1])
  }

  /** No match starts before `k`. */
  predicate NoMatchBefore(a: Alphabet, rule: Rule, s: string, inWord: bool, k: nat) {
    k <= |s| && forall i | 0 <= i < k :: rule(s[i..], WordBefore(a, s, inWord, i)) == 0
  }

  ghost predicate NoUrlBefore(a: Alphabet, s: string, k: nat) {
    k <= |s| && forall i, n: nat | 0 <= i < k && n > 0 :: !IsUrl(a, s[i..], WordBefore(a, s, false, i), n)
  }

  ghost predicate NoScanGroupBefore(a: Alphabet, s: string, k: nat) {
    k <= |s| && forall i, n: nat | 0 <= i < k && n > 0 :: !IsScanGroup(a, s[i..], WordBefore(a, s, false, i), n)
  }

  lemma {:induction false} StripUpTo(a: Alphabet, rule: Rule, s: string, inWord: bool, k: nat)
    requires NoMatchBefore(a, rule, s, inWord, k)
    ensures Strip(a, rule, s, inWord) == s[..k] + Strip(a, rule, s[k..], WordBefore(a, s, inWord, k))
    decreases k
  {
    hide Strip;
    if k == 0 {
      assert s[0..] == s && s[..0] == "" && "" + Strip(a, rule, s, inWord) == Strip(a, rule, s, inWord);
    } else {
      StripUpTo(a, rule, s, inWord, k - 1);
      var rest := s[k - 1..];
      StripStep(a, rule, rest, WordBefore(a, s, inWord, k - 1));
      assert rest[1..] == s[k..] && rest[0] == s[k - 1] && s[..k - 1] + [s[k - 1]] == s[..k];
    }
  }

  lemma NothingStripped(a: Alphabet, rule: Rule, s: string)
    requires NoMatchBefore(a, rule, s, false, |s|)
    ensures Strip(a, rule, s, false) == s
  {
    StripUpTo(a, rule, s, false, |s|);
  }

  lemma MatchAtEndStripped(a: Alphabet, rule: Rule, x: string, m: string)
    requires m != "" && NoMatchBefore(a, rule, x + m, false, |x|) && rule(m, WordBefore(a, x + m, false, |x|)) == |m|
    ensures Strip(a, rule, x + m, false) == x
  {
    StripUpTo(a, rule, x + m, false, |x|);
    assert (x + m)[|x|..] == m && (x + m)[..|x|] == x && m[|m|..] == "";
  }

  lemma NoUrlNoMatch(a: Alphabet, s: string, k: nat)
    requires Latin(a) && NoUrlBefore(a, s, k)
    ensures NoMatchBefore(a, UrlRule(a), s, false, k)
  {
    hide IsUrl;
    forall i | 0 <= i < k ensures UrlRule(a)(s[i..], WordBefore(a, s, false, i)) == 0 {
      var n := UrlRule(a)(s[i..], WordBefore(a, s, false, i));
      if n > 0 {
        UrlExactly(a, s[i..], WordBefore(a, s, false, i), n);
      }
    }
  }

  lemma NoScanGroupNoMatch(a: Alphabet, s: string, k: nat)
    requires NoScanGroupBefore(a, s, k)
    ensures NoMatchBefore(a, ScanRule(a), s, false, k)
  {
    hide IsScanGroup;
    forall i | 0 <= i < k ensures ScanRule(a)(s[i..], WordBefore(a, s, false, i)) == 0 {
      var n := ScanRule(a)(s[i..], WordBefore(a, s, false, i));
      if n > 0 {
        ScanGroupExactly(a, s[i..], WordBefore(a, s, false, i), n);
      }
    }
  }

  /** No rule that is on finds anything: no run of hex to repair, no URL, no scan group, no slash, space or G-code at the
      end. */
  ghost predicate Untouched(a: Alphabet, url: bool, scanGroups: bool, s: string) {
    && HexRepair.Repaired(s) == s && (url ==> NoUrlBefore(a, s, |s|)) && (scanGroups ==> NoScanGroupBefore(a, s, |s|))
    && (s != "" ==> !a.unicode.isSpace(s[|s| - 1]) && s[|s| - 1] != '/') && forall g: nat :: !EndsInGCode(a, s, g)
  }

  lemma EndStays(a: Alphabet, s: string)
    requires s != "" ==> !a.unicode.isSpace(s[|s| - 1]) && s[|s| - 1] != '/'
    requires forall g: nat :: !EndsInGCode(a, s, g)
    ensures GCode(a, Slashes(a, s)) == s
  {
    WithoutGCode(a, s);
  }

  /** Then nothing is deleted, whatever rules are off. */
  lemma NothingDeleted(a: Alphabet, url: bool, scanGroups: bool, brackets: bool, windowsSafe: bool, s: string)
    requires Latin(a) && Untouched(a, url, scanGroups, s)
    ensures RuleSet(a, url, scanGroups, brackets, windowsSafe).delete(s) == s
  {
    hide Strip, GCode, Slashes, Latin, NoMatchBefore, EndsInGCode, UrlRule, ScanRule;
    if url {
      NoUrlNoMatch(a, s, |s|);
      NothingStripped(a, UrlRule(a), s);
    }
    if scanGroups {
      NoScanGroupNoMatch(a, s, |s|);
      NothingStripped(a, ScanRule(a), s);
    }
    EndStays(a, s);
  }

  /** Spaced as names are. */
  ghost predicate NameLike(a: Alphabet, r: Rules, x: string) {
    && Plain(r, x) && (x != "" ==> !a.unicode.isSpace(x[0]) && !a.unicode.isSpace(x[|x| - 1]))
    && forall i | 0 < i < |x| :: x[i - 1] != ' ' || x[i] != ' '
  }

  /** A text without brackets of which the rules leave a name is cleaned to that name. */
  lemma CleanedToName(a: Alphabet, r: Rules, s: string, x: string)
    requires r.delete(s) == x && r.delete(x) == x && NameLike(a, r, x)
    requires forall i | 0 <= i < |s| :: s[i] !in {'[', ']', '(', ')'}
    ensures Sanitized(a, r, s) == x
  {
    hide Pass, CollapseSpaces, Unbracket, WindowsSafe;
    NothingReattached(a, r, s);
    NothingReattached(a, r, x);
    PlainSurvives(a, r, x);
    SpacedStays(a, x);
    SameCore(a, r, s, x);
    TwoPasses(a, r, s, x);
  }

  /** The rules that only cut the end leave `x` of `s`, and the others find nothing. */
  lemma EndIsDeleted(a: Alphabet, url: bool, scanGroups: bool, brackets: bool, windowsSafe: bool, s: string, x: string)
    requires Latin(a) && HexRepair.Repaired(s) == s && GCode(a, Slashes(a, s)) == x
    requires (url ==> NoUrlBefore(a, s, |s|)) && (scanGroups ==> NoScanGroupBefore(a, s, |s|))
    ensures RuleSet(a, url, scanGroups, brackets, windowsSafe).delete(s) == x
  {
    hide Strip, GCode, Slashes, Latin, NoMatchBefore, UrlRule, ScanRule, NoUrlBefore, NoScanGroupBefore;
    if url {
      NoUrlNoMatch(a, s, |s|);
      NothingStripped(a, UrlRule(a), s);
    }
    if scanGroups {
      NoScanGroupNoMatch(a, s, |s|);
      NothingStripped(a, ScanRule(a), s);
    }
  }

  /** The space a deleted word leaves behind a text goes, too. */
  lemma SpaceLeft(a: Alphabet, x: string)
    requires Latin(a) && (x != "" ==> !a.unicode.isSpace(x[|x| - 1]) && x[|x| - 1] != '/')
    requires forall g: nat :: !EndsInGCode(a, x, g)
    ensures GCode(a, Slashes(a, x + " ")) == x
  {
    hide EndsInGCode;
    TrailingSlashesGo(a, x, " ");
    WithoutGCode(a, x);
  }

  lemma AddressIsDeleted(a: Alphabet, scanGroups: bool, brackets: bool, windowsSafe: bool, x: string, m: string)
    requires Latin(a) && Untouched(a, true, scanGroups, x) && m != "" && IsUrl(a, m, false, |m|)
    requires var s := x + " " + m; HexRepair.Repaired(s) == s && NoUrlBefore(a, s, |x| + 1)
    requires scanGroups ==> NoScanGroupBefore(a, x + " ", |x| + 1)
    ensures RuleSet(a, true, scanGroups, brackets, windowsSafe).delete(x + " " + m) == x
  {
    hide Strip, GCode, Slashes, IsUrl, EndsInGCode, NoMatchBefore, ScanRule, NoUrlBefore, NoScanGroupBefore;
    var s := x + " " + m;
    assert WordBefore(a, s, false, |x + " "|) == a.isWord(' ') == false;
    UrlExactly(a, m, false, |m|);
    NoUrlNoMatch(a, s, |x| + 1);
    MatchAtEndStripped(a, UrlRule(a), x + " ", m);
    if scanGroups {
      NoScanGroupNoMatch(a, x + " ", |x| + 1);
      NothingStripped(a, ScanRule(a), x + " ");
    }
    SpaceLeft(a, x);
  }

  lemma ScanGroupIsDeleted(a: Alphabet, url: bool, brackets: bool, windowsSafe: bool, x: string, m: string)
    requires Latin(a) && Untouched(a, url, true, x) && m != "" && IsScanGroup(a, m, false, |m|)
    requires var s := x + " " + m; HexRepair.Repaired(s) == s && NoScanGroupBefore(a, s, |x| + 1)
    requires url ==> NoUrlBefore(a, x + " " + m, |x + " " + m|)
    ensures RuleSet(a, url, true, brackets, windowsSafe).delete(x + " " + m) == x
  {
    hide Strip, GCode, Slashes, IsScanGroup, EndsInGCode, NoMatchBefore, UrlRule, NoUrlBefore, NoScanGroupBefore;
    var s := x + " " + m;
    assert WordBefore(a, s, false, |x + " "|) == a.isWord(' ') == false;
    if url {
      NoUrlNoMatch(a, s, |s|);
      NothingStripped(a, UrlRule(a), s);
    }
    ScanGroupExactly(a, m, false, |m|);
    NoScanGroupNoMatch(a, s, |x| + 1);
    MatchAtEndStripped(a, ScanRule(a), x + " ", m);
    SpaceLeft(a, x);
  }

  /** A URL behind a name goes from it, with the space before it. */
  lemma AddressGoes(a: Alphabet, scanGroups: bool, brackets: bool, windowsSafe: bool, x: string, m: string)
    requires Latin(a) && Untouched(a, true, scanGroups, x) && m != "" && IsUrl(a, m, false, |m|)
    requires var s := x + " " + m; HexRepair.Repaired(s) == s && NoUrlBefore(a, s, |x| + 1)
    requires scanGroups ==> NoScanGroupBefore(a, x + " ", |x| + 1)
    requires NameLike(a, RuleSet(a, true, scanGroups, brackets, windowsSafe), x)
    requires forall i | 0 <= i < |m| :: m[i] !in {'[', ']', '(', ')'}
    ensures Sanitized(a, RuleSet(a, true, scanGroups, brackets, windowsSafe), x + " " + m) == x
  {
    hide RuleSet, Untouched, IsUrl, NoUrlBefore, NoScanGroupBefore, Latin;
    AddressIsDeleted(a, scanGroups, brackets, windowsSafe, x, m);
    NothingDeleted(a, true, scanGroups, brackets, windowsSafe, x);
    CleanedToName(a, RuleSet(a, true, scanGroups, brackets, windowsSafe), x + " " + m, x);
  }

  /** A scan-group word behind a name goes from it, with the space before it. */
  lemma ScanGroupGoes(a: Alphabet, url: bool, brackets: bool, windowsSafe: bool, x: string, m: string)
    requires Latin(a) && Untouched(a, url, true, x) && m != "" && IsScanGroup(a, m, false, |m|)
    requires var s := x + " " + m; HexRepair.Repaired(s) == s && NoScanGroupBefore(a, s, |x| + 1)
    requires url ==> NoUrlBefore(a, x + " " + m, |x + " " + m|)
    requires NameLike(a, RuleSet(a, url, true, brackets, windowsSafe), x)
    requires forall i | 0 <= i < |m| :: m[i] !in {'[', ']', '(', ')'}
    ensures Sanitized(a, RuleSet(a, url, true, brackets, windowsSafe), x + " " + m) == x
  {
    hide RuleSet, Untouched, IsScanGroup, NoUrlBefore, NoScanGroupBefore, Latin;
    ScanGroupIsDeleted(a, url, brackets, windowsSafe, x, m);
    NothingDeleted(a, url, true, brackets, windowsSafe, x);
    CleanedToName(a, RuleSet(a, url, true, brackets, windowsSafe), x + " " + m, x);
  }

  /** A G-code behind a name goes from it under every rule set, with slashes behind it and spaces and hyphens before it. */
  lemma GCodeGoesFromNames(a: Alphabet, url: bool, scanGroups: bool, brackets: bool, windowsSafe: bool,
                           x: string, dashes: string, digits: string, slashes: string)
    requires Latin(a) && Untouched(a, url, scanGroups, x) && (x != "" ==> x[|x| - 1] != '-')
    requires dashes != "" && forall i | 0 <= i < |dashes| :: dashes[i] in {' ', '-'}
    requires 3 <= |digits| <= 5 && forall i | 0 <= i < |digits| ::
      a.unicode.isDigit(digits[i]) && !a.unicode.isSpace(digits[i]) && digits[i] !in {'/'} + BRACKETS
    requires !a.unicode.isDigit('G') && forall i | 0 <= i < |slashes| :: slashes[i] in {' ', '/'}
    requires var s := x + dashes + "G" + digits + slashes;
      && HexRepair.Repaired(s) == s && (url ==> NoUrlBefore(a, s, |s|)) && (scanGroups ==> NoScanGroupBefore(a, s, |s|))
    requires NameLike(a, RuleSet(a, url, scanGroups, brackets, windowsSafe), x)
    ensures Sanitized(a, RuleSet(a, url, scanGroups, brackets, windowsSafe), x + dashes + "G" + digits + slashes) == x
  {
    hide RuleSet, NoUrlBefore, NoScanGroupBefore, EndsInGCode, GCode, Slashes, Latin, Plain;
    NameHasNoBrackets(a, RuleSet(a, url, scanGroups, brackets, windowsSafe), x);
    NoBracketsBehind(x, dashes, digits, slashes);
    CodeAndSlashes(a, x, dashes, digits, slashes);
    EndIsDeleted(a, url, scanGroups, brackets, windowsSafe, x + dashes + "G" + digits + slashes, x);
    NothingDeleted(a, url, scanGroups, brackets, windowsSafe, x);
    CleanedToName(a, RuleSet(a, url, scanGroups, brackets, windowsSafe), x + dashes + "G" + digits + slashes, x);
  }

  lemma NameHasNoBrackets(a: Alphabet, r: Rules, x: string)
    requires NameLike(a, r, x)
    ensures forall i | 0 <= i < |x| :: x[i] !in BRACKETS
  {
  }

  lemma NoBracketsBehind(x: string, dashes: string, digits: string, slashes: string)
    requires forall i | 0 <= i < |x| :: x[i] !in BRACKETS
    requires forall i | 0 <= i < |dashes| :: dashes[i] in {' ', '-'}
    requires forall i | 0 <= i < |digits| :: digits[i] !in BRACKETS
    requires forall i | 0 <= i < |slashes| :: slashes[i] in {' ', '/'}
    ensures var s := x + dashes + "G" + digits + slashes; forall i | 0 <= i < |s| :: s[i] !in {'[', ']', '(', ')'}
  {
    assert forall c | c in x + dashes + "G" + digits + slashes :: c !in BRACKETS;
  }

  lemma CodeAndSlashes(a: Alphabet, x: string, dashes: string, digits: string, slashes: string)
    requires Latin(a) && (x != "" ==> !a.unicode.isSpace(x[|x| - 1]) && x[|x| - 1] != '-')
    requires dashes != "" && forall i | 0 <= i < |dashes| :: dashes[i] in {' ', '-'}
    requires 3 <= |digits| <= 5 && forall i | 0 <= i < |digits| ::
      a.unicode.isDigit(digits[i]) && !a.unicode.isSpace(digits[i]) && digits[i] != '/'
    requires !a.unicode.isDigit('G') && forall i | 0 <= i < |slashes| :: slashes[i] in {' ', '/'}
    ensures GCode(a, Slashes(a, x + dashes + "G" + digits + slashes)) == x
  {
    hide GCode, Slashes;
    SpacesAndHyphens(a, dashes);
    SlashesBehind(a, x + dashes + "G" + digits, slashes);
    CodeBehind(a, x, dashes, digits);
  }

  lemma SlashesBehind(a: Alphabet, coded: string, slashes: string)
    requires Latin(a) && coded != "" && !a.unicode.isSpace(coded[|coded| - 1]) && coded[|coded| - 1] != '/'
    requires forall i | 0 <= i < |slashes| :: slashes[i] in {' ', '/'}
    ensures Slashes(a, coded + slashes) == coded
  {
    hide Slashes;
    assert forall i | 0 <= i < |slashes| :: a.unicode.isSpace(slashes[i]) || slashes[i] == '/';
    TrailingSlashesGo(a, coded, slashes);
  }

  lemma CodeBehind(a: Alphabet, x: string, dashes: string, digits: string)
    requires x != "" ==> !a.unicode.isSpace(x[|x| - 1]) && x[|x| - 1] != '-'
    requires dashes != "" && forall i | 0 <= i < |dashes| ::
      (a.unicode.isSpace(dashes[i]) || dashes[i] == '-') && !a.isWord(dashes[i])
    requires 3 <= |digits| <= 5 && forall i | 0 <= i < |digits| :: a.unicode.isDigit(digits[i])
    requires !a.unicode.isDigit('G')
    ensures GCode(a, x + dashes + "G" + digits) == x
  {
    hide GCode;
    assert (x + dashes)[|x + dashes| - 1] == dashes[|dashes| - 1];
    GCodeGoes(a, x, dashes, digits);
  }

  lemma SpacesAndHyphens(a: Alphabet, dashes: string)
    requires Latin(a) && forall i | 0 <= i < |dashes| :: dashes[i] in {' ', '-'}
    ensures forall i | 0 <= i < |dashes| ::
      (a.unicode.isSpace(dashes[i]) || dashes[i] == '-') && !a.isWord(dashes[i])
  {
  }
}
