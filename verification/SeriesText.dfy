/**
 Series display names: `sanitize_series_name` and the guard against names that end in something a reader takes for a
 token (scripts/cbz_canonical_name.py).
 */
module SeriesText {
  import opened CanonicalNumbers
  import opened CanonicalTokens

  /** The facts about Unicode the code relies on, as functions. `fold` is what IGNORECASE compares by. */
  datatype Unicode = Unicode(
    nfc: string -> string,
    isSpace: char -> bool,
    isDigit: char -> bool,
    fold: char -> char)

  /** Composition is idempotent and survives the cleaning, which only puts spaces in and takes text out between
      spaces and at the ends; the ASCII space and digits are what they look like. */
  ghost predicate Sane(u: Unicode) {
    && (forall s: string :: u.nfc(u.nfc(s)) == u.nfc(s))
    && (forall s: string :: u.nfc(s) == s ==> u.nfc(Tidy(u, s)) == Tidy(u, s))
    && u.isSpace(' ')
    && !u.isSpace('.')
    && forall c | IsDigit(c) :: u.isDigit(c) && !u.isSpace(c)
  }

  // ------------------------------------------------------------ sanitising

  predicate Forbidden(c: char) {
    c in {'<', '>', ':', '"', '/', '\\', '|', '?', '*'} || c as int < 0x20 || c as int == 0x7f
  }

  function Unforbid(s: string): (r: string)
    ensures |r| == |s|
    ensures forall i | 0 <= i < |s| :: r[i] == if Forbidden(s[i]) then ' ' else s[i]
  {
    seq(|s|, i requires 0 <= i < |s| => if Forbidden(s[i]) then ' ' else s[i])
  }

  /** Runs of whitespace become one space; `after` says whether the previous character was whitespace. */
  function Collapse(u: Unicode, s: string, after: bool): string {
    if s == "" then ""
    else if u.isSpace(s[0]) then (if after then "" else " ") + Collapse(u, s[1..], true)
    else [s[0]] + Collapse(u, s[1..], false)
  }

  function StripLeft(u: Unicode, s: string): string {
    if s != "" && u.isSpace(s[0]) then StripLeft(u, s[1..]) else s
  }

  function StripRight(u: Unicode, s: string): string {
    if s != "" && u.isSpace(s[|s| - 1]) then StripRight(u, s[..|s| - 1]) else s
  }

  /** `rstrip(" .")` */
  function StripDots(s: string): string {
    if s != "" && s[|s| - 1] in {' ', '.'} then StripDots(s[..|s| - 1]) else s
  }

  function Tidy(u: Unicode, s: string): string {
    StripDots(StripRight(u, StripLeft(u, Collapse(u, Unforbid(s), false))))
  }

  /** `sanitize_series_name` */
  function Sanitize(u: Unicode, s: string): string {
    Tidy(u, u.nfc(s))
  }

  /** Single spaces only, and nothing forbidden. */
  ghost predicate Spaced(u: Unicode, s: string) {
    && (forall i | 0 <= i < |s| :: !Forbidden(s[i]) && (u.isSpace(s[i]) ==> s[i] == ' '))
    && forall i | 0 < i < |s| :: !(s[i - 1] == ' ' && s[i] == ' ')
  }

  /** What sanitising leaves. */
  ghost predicate Clean(u: Unicode, s: string) {
    && Spaced(u, s)
    && (s != "" ==> s[0] != ' ' && s[|s| - 1] != ' ' && s[|s| - 1] != '.')
  }

  lemma {:induction false} CollapseIsSpaced(u: Unicode, s: string, after: bool)
    requires u.isSpace(' ')
    requires forall i | 0 <= i < |s| :: !Forbidden(s[i])
    ensures Spaced(u, Collapse(u, s, after))
    ensures after && Collapse(u, s, after) != "" ==> !u.isSpace(Collapse(u, s, after)[0])
  {
    if s != "" {
      CollapseIsSpaced(u, s[1..], u.isSpace(s[0]));
    }
  }

  lemma StripLeftKeepsSpaced(u: Unicode, s: string)
    requires Spaced(u, s)
    ensures Spaced(u, StripLeft(u, s))
    ensures StripLeft(u, s) != "" ==> !u.isSpace(StripLeft(u, s)[0])
  {
  }

  lemma StripRightKeepsSpaced(u: Unicode, s: string)
    requires Spaced(u, s)
    ensures StripRight(u, s) <= s && Spaced(u, StripRight(u, s))
    ensures StripRight(u, s) != "" ==> !u.isSpace(StripRight(u, s)[|StripRight(u, s)| - 1])
  {
  }

  lemma {:induction false} StripDotsKeepsSpaced(u: Unicode, s: string)
    requires Spaced(u, s)
    ensures StripDots(s) <= s && Spaced(u, StripDots(s))
    ensures StripDots(s) != "" ==> StripDots(s)[|StripDots(s)| - 1] !in {' ', '.'}
  {
    if s != "" && s[|s| - 1] in {' ', '.'} {
      StripDotsKeepsSpaced(u, s[..|s| - 1]);
    }
  }

  lemma SanitizeIsClean(u: Unicode, s: string)
    requires Sane(u)
    ensures Clean(u, Sanitize(u, s))
    ensures u.nfc(Sanitize(u, s)) == Sanitize(u, s)
  {
    var a := Unforbid(u.nfc(s));
    CollapseIsSpaced(u, a, false);
    var b := Collapse(u, a, false);
    StripLeftKeepsSpaced(u, b);
    var c := StripLeft(u, b);
    StripRightKeepsSpaced(u, c);
    StripDotsKeepsSpaced(u, StripRight(u, c));
    assert u.nfc(u.nfc(s)) == u.nfc(s);
  }

  lemma {:induction false} CollapseOfSpaced(u: Unicode, s: string, after: bool)
    requires Spaced(u, s) && (after && s != "" ==> !u.isSpace(s[0])) && u.isSpace(' ')
    ensures Collapse(u, s, after) == s
  {
    if s != "" {
      CollapseOfSpaced(u, s[1..], u.isSpace(s[0]));
      assert s == [s[0]] + s[1..];
    }
  }

  /** Sanitising what is already clean changes nothing. */
  lemma SanitizeOfClean(u: Unicode, s: string)
    requires Sane(u) && Clean(u, s) && u.nfc(s) == s
    ensures Sanitize(u, s) == s
  {
    assert Unforbid(s) == s;
    CollapseOfSpaced(u, s, false);
  }

  /** Sanitising twice is sanitising once. */
  lemma SanitizeIdempotent(u: Unicode, s: string)
    requires Sane(u)
    ensures Sanitize(u, Sanitize(u, s)) == Sanitize(u, s)
  {
    SanitizeIsClean(u, s);
    SanitizeOfClean(u, Sanitize(u, s));
  }

  /** What sanitising gives can name a folder: it has no character Windows forbids and no control character, single spaces
      only, no space at its ends and no dot behind it. A composed name that is so already stays as it is. */
  lemma SanitizedNamesAFolder(u: Unicode, s: string)
    requires Sane(u)
    ensures var t := Sanitize(u, s);
      && (forall i | 0 <= i < |t| ::
            t[i] !in {'<', '>', ':', '"', '/', '\\', '|', '?', '*'} && t[i] as int >= 0x20 && t[i] as int != 0x7f)
      && (forall i | 0 <= i < |t| && u.isSpace(t[i]) :: t[i] == ' ' && 0 < i < |t| - 1 && t[i - 1] != ' ')
      && (t != "" ==> t[|t| - 1] != '.')
    ensures
      && u.nfc(s) == s
      && (forall i | 0 <= i < |s| ::
            s[i] !in {'<', '>', ':', '"', '/', '\\', '|', '?', '*'} && s[i] as int >= 0x20 && s[i] as int != 0x7f)
      && (forall i | 0 <= i < |s| && u.isSpace(s[i]) :: s[i] == ' ' && 0 < i < |s| - 1 && s[i - 1] != ' ')
      && (s != "" ==> s[|s| - 1] != '.')
      ==> Sanitize(u, s) == s
  {
    SanitizeIsClean(u, s);
    if Clean(u, s) && u.nfc(s) == s {
      SanitizeOfClean(u, s);
    }
  }

  // ------------------------------------------------------------ the trailing-token guard

  /** Equal up to case, as IGNORECASE compares. */
  ghost predicate SameFolded(u: Unicode, a: string, b: string) {
    |a| == |b| && forall i | 0 <= i < |a| :: u.fold(a[i]) == u.fold(b[i])
  }

  predicate AllDigits(u: Unicode, s: string) {
    s != "" && forall i | 0 <= i < |s| :: u.isDigit(s[i])
  }

  /** `\d[\d.\-]*` */
  predicate NumberLike(u: Unicode, s: string) {
    s != "" && u.isDigit(s[0]) && forall i | 0 < i < |s| :: u.isDigit(s[i]) || s[i] == '.' || s[i] == '-'
  }

  predicate VolumeLike(u: Unicode, s: string) {
    s != "" && u.fold(s[0]) == u.fold('v') && NumberLike(u, s[1..])
  }

  predicate IssueLike(u: Unicode, s: string) {
    s != "" && s[0] == '#' && NumberLike(u, s[1..])
  }

  /** `ch\.?\s*\d[\d.\-]*` */
  predicate ChapterLike(u: Unicode, s: string) {
    && |s| >= 2 && u.fold(s[0]) == u.fold('c') && u.fold(s[1]) == u.fold('h')
    && (NumberLike(u, StripLeft(u, s[2..]))
        || (|s| > 2 && s[2] == '.' && NumberLike(u, StripLeft(u, s[3..]))))
  }

  predicate YearLike(u: Unicode, s: string) {
    |s| == 6 && s[0] == '(' && AllDigits(u, s[1..5]) && s[5] == ')'
  }

  predicate VersionLike(u: Unicode, s: string) {
    && |s| >= 4 && s[0] == '[' && u.fold(s[1]) == u.fold('v')
    && AllDigits(u, s[2..|s| - 1]) && s[|s| - 1] == ']'
  }

  ghost predicate EditionLike(u: Unicode, ws: Words, s: string) {
    SameFolded(u, s, "(TPB)") || exists w | w in ws.editions :: SameFolded(u, s, "(" + w + ")")
  }

  ghost predicate SpecialLike(u: Unicode, ws: Words, s: string) {
    exists w | w in ws.specials :: SameFolded(u, s, w)
  }

  /** `(?:^|\s)` */
  predicate AtStart(u: Unicode, s: string, i: nat)
    requires i <= |s|
  {
    i == 0 || u.isSpace(s[i - 1])
  }

  /** One alternative of `_TRAILING_TOKEN_RE`, from `i` to the end. */
  ghost predicate TokenSuffix(u: Unicode, ws: Words, s: string, i: nat)
    requires i <= |s|
  {
    var t := s[i..];
    || (AtStart(u, s, i) && (VolumeLike(u, t) || ChapterLike(u, t) || SpecialLike(u, ws, t)))
    || IssueLike(u, t) || YearLike(u, t) || VersionLike(u, t) || EditionLike(u, ws, t)
  }

  /** `_TRAILING_TOKEN_RE.search(s)` */
  ghost predicate EndsInToken(u: Unicode, ws: Words, s: string) {
    exists i: nat | i <= |s| :: TokenSuffix(u, ws, s, i)
  }

  lemma NumberIsNumberLike(u: Unicode, n: string)
    requires Sane(u) && IsNumber(n)
    ensures NumberLike(u, n)
  {
    NumberChars(n);
  }

  lemma DigitsAreDigits(u: Unicode, n: string)
    requires Sane(u) && Digits(n)
    ensures AllDigits(u, n)
  {
  }

  lemma SpaceThenNumber(u: Unicode, n: string)
    requires Sane(u) && NumberLike(u, n) && !u.isSpace(n[0])
    ensures StripLeft(u, " " + n) == n
  {
  }

  /** Every token text the pattern accepts, the guard rejects at the end of a series. */
  lemma GuardCoversTokens(u: Unicode, ws: Words, s: string)
    requires Sane(u) && EndsInTokenText(ws, s)
    ensures EndsInToken(u, ws, s)
  {
    var t: Token :| Shape(ws, t) && |Text(t)| < |s| && SuffixOf(s, |Text(t)| + 1) == " " + Text(t);
    var i := |s| - |Text(t)|;
    assert s[i - 1..] == " " + Text(t);
    assert s[i - 1] == ' ';
    assert s[i..] == Text(t) by {
      assert s[i..] == s[i - 1..][1..];
    }
    GuardCoversToken(u, ws, t);
    assert TokenSuffix(u, ws, s, i);
  }

  lemma ChapterIsChapterLike(u: Unicode, n: string)
    requires Sane(u) && IsNumber(n)
    ensures ChapterLike(u, "ch. " + n)
  {
    NumberIsNumberLike(u, n);
    NumberStart(n);
    SpaceThenNumber(u, n);
    assert ("ch. " + n)[3..] == " " + n;
  }

  lemma NumbersAreLike(u: Unicode, n: string)
    requires Sane(u) && IsNumber(n)
    ensures VolumeLike(u, "v" + n) && IssueLike(u, "#" + n)
  {
    NumberIsNumberLike(u, n);
    assert ("v" + n)[1..] == n && ("#" + n)[1..] == n;
  }

  lemma YearIsYearLike(u: Unicode, y: string)
    requires Sane(u) && Digits(y) && |y| == 4
    ensures YearLike(u, "(" + y + ")")
  {
    DigitsAreDigits(u, y);
    assert ("(" + y + ")")[1..5] == y;
  }

  lemma VersionIsVersionLike(u: Unicode, n: string)
    requires Sane(u) && Digits(n)
    ensures VersionLike(u, "[v" + n + "]")
  {
    DigitsAreDigits(u, n);
    var s := "[v" + n + "]";
    assert s[2..|s| - 1] == n;
  }

  lemma WordsAreLike(u: Unicode, ws: Words, w: string)
    ensures w in ws.specials ==> SpecialLike(u, ws, w)
    ensures w in ws.editions ==> EditionLike(u, ws, "(" + w + ")")
    ensures EditionLike(u, ws, "(TPB)")
  {
    assert SameFolded(u, w, w) && SameFolded(u, "(" + w + ")", "(" + w + ")") && SameFolded(u, "(TPB)", "(TPB)");
  }

  lemma GuardCoversToken(u: Unicode, ws: Words, t: Token)
    requires Sane(u) && Shape(ws, t)
    ensures var s := Text(t);
      || VolumeLike(u, s) || ChapterLike(u, s) || SpecialLike(u, ws, s)
      || IssueLike(u, s) || YearLike(u, s) || VersionLike(u, s) || EditionLike(u, ws, s)
  {
    hide Sane, VolumeLike, ChapterLike, SpecialLike, IssueLike, YearLike, VersionLike, EditionLike;
    match t
    case SeriesYear(y) => YearIsYearLike(u, y);
    case Year(y) => YearIsYearLike(u, y);
    case Special(w) => WordsAreLike(u, ws, w);
    case Volume(n) => NumbersAreLike(u, n);
    case Issue(n) => NumbersAreLike(u, n);
    case Chapter(n) => ChapterIsChapterLike(u, n);
    case Collection => WordsAreLike(u, ws, "");
    case Edition(w) => WordsAreLike(u, ws, w);
    case Version(n) => VersionIsVersionLike(u, n);
  }
}
