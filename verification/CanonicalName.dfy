/**
 Canonical file names: construction of the fields, formatting, parsing, and that the two are inverse
 (scripts/cbz_canonical_name.py). Formatting never needs its own self-check, and parsing accepts exactly what
 formatting produces.
 */
module CanonicalName {
  import opened Outcomes
  import opened CanonicalNumbers
  import opened CanonicalTokens
  import opened SeriesText

  const VOLUME_WIDTH := 2
  const ISSUE_WIDTH := 3

  datatype NameError =
    | EmptySeriesName
    | AmbiguousSeriesName
    | IssueAndChapter
    | UnknownEdition
    | UnknownSpecialWord
    | InvalidCollection
    | MalformedNumber
    | MalformedYear
    | MalformedVersion
    | SeriesYearWithoutNumbering
    | ReservedName
    | NameTooLong
    | NotCanonical

  /** `CanonicalFields`. */
  datatype Fields = Fields(
    series: string,
    volume: Option<string>,
    issue: Option<string>,
    chapter: Option<string>,
    year: Option<nat>,
    edition: Option<string>,
    special: Option<string>,
    version: Option<nat>,
    collection: Option<string>,
    seriesYear: Option<nat>)

  /** A constructor argument that may be an int or a str; everything else is refused. */
  datatype Arg = IntArg(n: int) | TextArg(s: string) | OtherArg

  datatype RawFields = RawFields(
    series: string,
    volume: Option<Arg>,
    issue: Option<Arg>,
    chapter: Option<Arg>,
    year: Option<Arg>,
    edition: Option<string>,
    special: Option<string>,
    version: Option<Arg>,
    collection: Option<string>,
    seriesYear: Option<Arg>)

  // ------------------------------------------------------------ construction

  function NumberArg(a: Option<Arg>): Result<Option<string>, NameError> {
    match a
    case None => Ok(None)
    case Some(OtherArg) => Err(MalformedNumber)
    case Some(IntArg(n)) => if n < 0 then Err(MalformedNumber) else Ok(Some(NatText(n)))
    case Some(TextArg(s)) =>
      match CanonicalNumber(s)
      case None => Err(MalformedNumber)
      case Some(c) => Ok(Some(c))
  }

  function YearArg(a: Option<Arg>): Result<Option<nat>, NameError> {
    match a
    case None => Ok(None)
    case Some(OtherArg) => Err(MalformedYear)
    case Some(IntArg(n)) => if 1000 <= n <= 9999 then Ok(Some(n)) else Err(MalformedYear)
    case Some(TextArg(s)) =>
      if Digits(s) && |s| == 4 && 1000 <= ValueOf(s) <= 9999 then Ok(Some(ValueOf(s))) else Err(MalformedYear)
  }

  function VersionArg(a: Option<Arg>): Result<Option<nat>, NameError> {
    match a
    case None => Ok(None)
    case Some(OtherArg) => Err(MalformedVersion)
    case Some(IntArg(n)) => if n >= 1 then Ok(Some(n)) else Err(MalformedVersion)
    case Some(TextArg(s)) =>
      if Digits(s) && s[0] != '0' && ValueOf(s) >= 1 then Ok(Some(ValueOf(s))) else Err(MalformedVersion)
  }

  /** `CanonicalFields.__post_init__` */
  ghost function Make(u: Unicode, ws: Words, raw: RawFields): Result<Fields, NameError> {
    var series := Sanitize(u, raw.series);
    if series == "" then Err(EmptySeriesName)
    else if EndsInToken(u, ws, series) then Err(AmbiguousSeriesName)
    else if raw.issue.Some? && raw.chapter.Some? then Err(IssueAndChapter)
    else if raw.edition.Some? && raw.edition.value !in ws.editions then Err(UnknownEdition)
    else if raw.special.Some? && raw.special.value !in ws.specials then Err(UnknownSpecialWord)
    else if raw.collection.Some?
         && (raw.collection.value != "TPB" || raw.volume.None? || raw.issue.Some? || raw.chapter.Some?)
      then Err(InvalidCollection)
    else MakeNumbers(series, raw)
  }

  function MakeNumbers(series: string, raw: RawFields): Result<Fields, NameError> {
    match (NumberArg(raw.volume), NumberArg(raw.issue), NumberArg(raw.chapter))
    case (Err(e), _, _) => Err(e)
    case (_, Err(e), _) => Err(e)
    case (_, _, Err(e)) => Err(e)
    case (Ok(volume), Ok(issue), Ok(chapter)) =>
      match (YearArg(raw.year), VersionArg(raw.version), YearArg(raw.seriesYear))
      case (Err(e), _, _) => Err(e)
      case (_, Err(e), _) => Err(e)
      case (_, _, Err(e)) => Err(e)
      case (Ok(year), Ok(version), Ok(seriesYear)) =>
        if seriesYear.Some? && volume.None? && issue.None? && chapter.None? then Err(SeriesYearWithoutNumbering)
        else Ok(Fields(series, volume, issue, chapter, if seriesYear.Some? then None else year,
                       raw.edition, raw.special, version, raw.collection, seriesYear))
  }

  ghost predicate IsSeries(u: Unicode, ws: Words, series: string) {
    series != "" && Clean(u, series) && u.nfc(series) == series && !EndsInToken(u, ws, series)
  }

  predicate AreWords(ws: Words, f: Fields) {
    && (f.edition.Some? ==> f.edition.value in ws.editions)
    && (f.special.Some? ==> f.special.value in ws.specials)
    && (f.collection.Some? ==> f.collection.value == "TPB" && f.volume.Some? && f.issue.None? && f.chapter.None?)
  }

  predicate AreNumbers(f: Fields) {
    && (f.issue.None? || f.chapter.None?)
    && (f.volume.Some? ==> IsCanonical(f.volume.value))
    && (f.issue.Some? ==> IsCanonical(f.issue.value))
    && (f.chapter.Some? ==> IsCanonical(f.chapter.value))
    && (f.year.Some? ==> 1000 <= f.year.value <= 9999)
    && (f.seriesYear.Some? ==> 1000 <= f.seriesYear.value <= 9999)
    && (f.version.Some? ==> f.version.value >= 1)
    && (f.seriesYear.Some? ==> f.year.None? && (f.volume.Some? || f.issue.Some? || f.chapter.Some?))
  }

  /** What construction guarantees. */
  ghost predicate IsFields(u: Unicode, ws: Words, f: Fields) {
    IsSeries(u, ws, f.series) && AreWords(ws, f) && AreNumbers(f)
  }

  lemma NumberArgIsCanonical(a: Option<Arg>)
    requires NumberArg(a).Ok?
    ensures NumberArg(a).value.Some? ==> IsCanonical(NumberArg(a).value.value)
    ensures a.Some? <==> NumberArg(a).value.Some?
  {
    match a
    case Some(IntArg(n)) => NatTextIsCanonical(n);
    case Some(TextArg(s)) => CanonicalNumberIsCanonical(s);
    case _ =>
  }

  lemma MakeGivesFields(u: Unicode, ws: Words, raw: RawFields)
    requires Sane(u) && Make(u, ws, raw).Ok?
    ensures IsFields(u, ws, Make(u, ws, raw).value)
  {
    SanitizeIsClean(u, raw.series);
    NumberArgIsCanonical(raw.volume);
    NumberArgIsCanonical(raw.issue);
    NumberArgIsCanonical(raw.chapter);
  }

  // ------------------------------------------------------------ the groups of the pattern

  /** The named groups after the series. */
  datatype Slots = Slots(
    seriesYear: Option<string>,
    special: Option<string>,
    volume: Option<string>,
    issue: Option<string>,
    chapter: Option<string>,
    year: Option<string>,
    collection: bool,
    edition: Option<string>,
    version: Option<string>)

  function Prepend(t: Option<Token>, ts: seq<Token>): seq<Token> {
    if t.Some? then [t.value] + ts else ts
  }

  function SeriesYearToken(sl: Slots): Option<Token> {
    if sl.seriesYear.Some? then Some(SeriesYear(sl.seriesYear.value)) else None
  }

  function SpecialToken(sl: Slots): Option<Token> {
    if sl.special.Some? then Some(Special(sl.special.value)) else None
  }

  function VolumeToken(sl: Slots): Option<Token> {
    if sl.volume.Some? then Some(Volume(sl.volume.value)) else None
  }

  function IssueToken(sl: Slots): Option<Token> {
    if sl.issue.Some? then Some(Issue(sl.issue.value)) else None
  }

  function ChapterToken(sl: Slots): Option<Token> {
    if sl.chapter.Some? then Some(Chapter(sl.chapter.value)) else None
  }

  function YearToken(sl: Slots): Option<Token> {
    if sl.year.Some? then Some(Year(sl.year.value)) else None
  }

  function EditionToken(sl: Slots): Option<Token> {
    if sl.edition.Some? then Some(Edition(sl.edition.value)) else None
  }

  function VersionToken(sl: Slots): Option<Token> {
    if sl.version.Some? then Some(Version(sl.version.value)) else None
  }

  function CollectionToken(sl: Slots): Option<Token> {
    if sl.collection then Some(Collection) else None
  }

  function FromVersion(sl: Slots): seq<Token> {
    Prepend(VersionToken(sl), [])
  }

  function FromEdition(sl: Slots): seq<Token> {
    Prepend(EditionToken(sl), FromVersion(sl))
  }

  function FromCollection(sl: Slots): seq<Token> {
    Prepend(CollectionToken(sl), FromEdition(sl))
  }

  function FromYear(sl: Slots): seq<Token> {
    Prepend(YearToken(sl), FromCollection(sl))
  }

  function FromChapter(sl: Slots): seq<Token> {
    Prepend(ChapterToken(sl), FromYear(sl))
  }

  function FromIssue(sl: Slots): seq<Token> {
    Prepend(IssueToken(sl), FromChapter(sl))
  }

  function FromVolume(sl: Slots): seq<Token> {
    Prepend(VolumeToken(sl), FromIssue(sl))
  }

  function FromSpecial(sl: Slots): seq<Token> {
    Prepend(SpecialToken(sl), FromVolume(sl))
  }

  function Tokens(sl: Slots): seq<Token> {
    Prepend(SeriesYearToken(sl), FromSpecial(sl))
  }

  /** Each group has matched what the pattern allows, and a series year has its lookahead. */
  ghost predicate SlotsMatch(ws: Words, sl: Slots) {
    && (sl.seriesYear.Some? ==> Digits(sl.seriesYear.value) && |sl.seriesYear.value| == 4
                                && Lookahead(ws, Render(FromSpecial(sl))))
    && (sl.special.Some? ==> sl.special.value in ws.specials)
    && (sl.volume.Some? ==> IsNumber(sl.volume.value))
    && (sl.issue.Some? ==> IsNumber(sl.issue.value))
    && (sl.chapter.Some? ==> IsNumber(sl.chapter.value))
    && (sl.issue.None? || sl.chapter.None?)
    && (sl.year.Some? ==> Digits(sl.year.value) && |sl.year.value| == 4)
    && (sl.edition.Some? ==> sl.edition.value in ws.editions)
    && (sl.version.Some? ==> Digits(sl.version.value) && sl.version.value[0] != '0')
  }

  lemma PrependFrom(ws: Words, t: Option<Token>, ts: seq<Token>, rank: nat, next: nat)
    requires From(ws, ts, next) && rank < next
    requires t.Some? ==> Shape(ws, t.value) && rank <= Rank(t.value) < next
    ensures From(ws, Prepend(t, ts), rank)
  {
  }

  lemma FromYearFrom(ws: Words, sl: Slots)
    requires SlotsMatch(ws, sl)
    ensures From(ws, FromYear(sl), 4)
  {
    PrependFrom(ws, VersionToken(sl), [], 7, 8);
    PrependFrom(ws, EditionToken(sl), FromVersion(sl), 6, 7);
    PrependFrom(ws, CollectionToken(sl), FromEdition(sl), 5, 6);
    PrependFrom(ws, YearToken(sl), FromCollection(sl), 4, 5);
  }

  lemma FromVolumeFrom(ws: Words, sl: Slots)
    requires SlotsMatch(ws, sl)
    ensures From(ws, FromVolume(sl), 2)
  {
    FromYearFrom(ws, sl);
    PrependFrom(ws, ChapterToken(sl), FromYear(sl), 3, 4);
    if sl.issue.Some? {
      PrependFrom(ws, IssueToken(sl), FromYear(sl), 3, 4);
    }
    PrependFrom(ws, VolumeToken(sl), FromIssue(sl), 2, 3);
  }

  lemma TokensAreTail(ws: Words, sl: Slots)
    requires SlotsMatch(ws, sl)
    ensures IsTail(ws, Tokens(sl))
  {
    FromVolumeFrom(ws, sl);
    PrependFrom(ws, SpecialToken(sl), FromVolume(sl), 1, 2);
    PrependFrom(ws, SeriesYearToken(sl), FromSpecial(sl), 0, 1);
    if sl.seriesYear.Some? {
      assert Tokens(sl)[1..] == FromSpecial(sl);
    } else if Tokens(sl) != [] {
      assert From(ws, FromSpecial(sl), 1);
    }
  }

  lemma InPrepend(t: Option<Token>, ts: seq<Token>, x: Token)
    ensures x in Prepend(t, ts) <==> (t == Some(x) || x in ts)
  {
  }

  /** The group of the token's kind holds the token's content. */
  predicate Holds(sl: Slots, x: Token) {
    match x
    case SeriesYear(y) => sl.seriesYear == Some(y)
    case Special(w) => sl.special == Some(w)
    case Volume(n) => sl.volume == Some(n)
    case Issue(n) => sl.issue == Some(n)
    case Chapter(n) => sl.chapter == Some(n)
    case Year(y) => sl.year == Some(y)
    case Collection => sl.collection
    case Edition(w) => sl.edition == Some(w)
    case Version(n) => sl.version == Some(n)
  }

  lemma InFromYear(sl: Slots, x: Token)
    ensures x in FromYear(sl) <==> Rank(x) >= 4 && Holds(sl, x)
  {
    InPrepend(VersionToken(sl), [], x);
    InPrepend(EditionToken(sl), FromVersion(sl), x);
    InPrepend(CollectionToken(sl), FromEdition(sl), x);
    InPrepend(YearToken(sl), FromCollection(sl), x);
  }

  lemma InTokens(sl: Slots, x: Token)
    ensures x in Tokens(sl) <==> Holds(sl, x)
  {
    InFromYear(sl, x);
    InPrepend(ChapterToken(sl), FromYear(sl), x);
    InPrepend(IssueToken(sl), FromChapter(sl), x);
    InPrepend(VolumeToken(sl), FromIssue(sl), x);
    InPrepend(SpecialToken(sl), FromVolume(sl), x);
    InPrepend(SeriesYearToken(sl), FromSpecial(sl), x);
  }

  lemma SameHolds(a: Slots, b: Slots, x: Token)
    requires Tokens(a) == Tokens(b)
    ensures Holds(a, x) <==> Holds(b, x)
  {
    InTokens(a, x);
    InTokens(b, x);
  }

  lemma HoldsIncludes(a: Slots, b: Slots)
    requires forall x | Holds(a, x) :: Holds(b, x)
    ensures a.collection ==> b.collection
    ensures a.seriesYear.Some? ==> b.seriesYear == a.seriesYear
    ensures a.special.Some? ==> b.special == a.special
    ensures a.volume.Some? ==> b.volume == a.volume
    ensures a.issue.Some? ==> b.issue == a.issue
    ensures a.chapter.Some? ==> b.chapter == a.chapter
    ensures a.year.Some? ==> b.year == a.year
    ensures a.edition.Some? ==> b.edition == a.edition
    ensures a.version.Some? ==> b.version == a.version
  {
    assert a.collection ==> Holds(a, Collection);
    assert a.seriesYear.Some? ==> Holds(a, SeriesYear(a.seriesYear.value));
    assert a.special.Some? ==> Holds(a, Special(a.special.value));
    assert a.volume.Some? ==> Holds(a, Volume(a.volume.value));
    assert a.issue.Some? ==> Holds(a, Issue(a.issue.value));
    assert a.chapter.Some? ==> Holds(a, Chapter(a.chapter.value));
    assert a.year.Some? ==> Holds(a, Year(a.year.value));
    assert a.edition.Some? ==> Holds(a, Edition(a.edition.value));
    assert a.version.Some? ==> Holds(a, Version(a.version.value));
  }

  lemma HoldsDetermines(a: Slots, b: Slots)
    requires forall x :: Holds(a, x) <==> Holds(b, x)
    ensures a == b
  {
    HoldsIncludes(a, b);
    HoldsIncludes(b, a);
  }

  lemma TokensInjective(a: Slots, b: Slots)
    requires Tokens(a) == Tokens(b)
    ensures a == b
  {
    forall x ensures Holds(a, x) <==> Holds(b, x) {
      SameHolds(a, b, x);
    }
    HoldsDetermines(a, b);
  }
}
