/**
 How numbers are written in canonical names, and what construction makes of the numbers it is given
 (scripts/cbz_canonical_name.py): volumes have at least two digits, issues at least three, chapters as many as they need,
 and no other spelling of a number is canonical.
 */
module NumberedNames {
  import opened Outcomes
  import opened CanonicalFormat
  import opened CanonicalName
  import opened CanonicalNumbers
  import opened CanonicalTokens
  import opened SeriesText

  // ------------------------------------------------------------ whole numbers

  /** Digits are zeros and then the digits that count. */
  lemma {:induction false} DigitsAreZerosThen(p: string)
    requires Digits(p)
    ensures var c := StripZeros(p);
      && |c| <= |p| && p == Zeros(|p| - |c|) + c && Digits(c) && StripZeros(c) == c && ValueOf(c) == ValueOf(p)
      && (c[0] == '0' ==> c == "0")
    decreases |p|
  {
    hide ValueOf, Zeros;
    DropZerosShape(p);
    if p[0] == '0' && |p| > 1 {
      var q := p[1..];
      assert Digits(q);
      DigitsAreZerosThen(q);
      var c := StripZeros(q);
      assert StripZeros(p) == c && p == "0" + q;
      OneMoreZero(|q| - |c|, c);
      LeadingZeroCountsNothing(q);
    } else if p[0] == '0' {
      assert p == "0" && p[1..] == "" && DropZeros(p) == "";
      NoZeros(p);
    } else {
      NoZeros(p);
    }
  }

  lemma OneMoreZero(n: nat, c: string)
    ensures Zeros(n + 1) + c == "0" + (Zeros(n) + c)
  {
    assert "0" + Zeros(n) + c == "0" + (Zeros(n) + c);
  }

  lemma NoZeros(c: string)
    ensures Zeros(0) + c == c
  {
  }

  lemma {:induction false} LeadingZeroCountsNothing(q: string)
    ensures ValueOf("0" + q) == ValueOf(q)
    decreases |q|
  {
    var p := "0" + q;
    if q == "" {
      assert p[..|p| - 1] == "";
    } else {
      assert p[..|p| - 1] == "0" + q[..|q| - 1];
      LeadingZeroCountsNothing(q[..|q| - 1]);
    }
  }

  lemma WholeNumberIsEndpoint(p: string)
    requires Digits(p)
    ensures IsEndpoint(p) && IsNumber(p) && IndexOf(p, '.') == |p| && IndexOf(p, '-') == |p|
    ensures CanonicalNumber(p) == Some(StripZeros(p))
  {
    DigitsHaveNo(p, '.');
    DigitsHaveNo(p, '-');
    assert StripZeros(p) + "" == StripZeros(p);
  }

  /** A whole number is written with its padding exactly when it has as many digits as that gives it. */
  lemma PaddedExactly(p: string, width: nat)
    requires Digits(p)
    ensures Pad(StripZeros(p), width) == p
      <==> |p| == width || (|p| > width && (p[0] != '0' || p == "0"))
  {
    var c := StripZeros(p);
    DigitsAreZerosThen(p);
    WholeNumberIsEndpoint(c);
    NumberIsPadded(c, width);
    var r := Pad(c, width);
    assert SplitDash(c) == [c] && r == PadEndpoint(c, width) == Zeros(width - |c|) + c;
    assert |c| < |p| ==> p[0] == '0' && p != "0";
  }

  // ------------------------------------------------------------ spellings a name may have

  const NO_SLOTS := Slots(None, None, None, None, None, None, false, None, None)

  function OnlySeries(series: string): Fields {
    Fields(series, None, None, None, None, None, None, None, None, None)
  }

  /** A name of a series and one token parses to what construction makes of it, when that has this name again. */
  lemma OneTokenName(u: Unicode, ws: Words, h: Host, series: string, sl: Slots, t: Token, f: Fields)
    requires Sane(u) && SafeWords(ws) && IsSeries(u, ws, series) && SlotsMatch(ws, sl) && Tokens(sl) == [t]
    requires Make(u, ws, RawOf(series, sl)) == Ok(f)
    ensures var name := series + " " + Text(t) + ".cbz";
      && (Accepts(h, name) ==> (Parse(u, ws, h, name).Ok? <==> NameOf(f) == name))
      && (Parse(u, ws, h, name).Ok? ==> Parse(u, ws, h, name) == Ok(f))
  {
    hide IsSeries, SafeWords, SlotsMatch;
    var name := series + Render(Tokens(sl));
    OneRendered(series, t);
    assert name == series + " " + Text(t) + ".cbz";
    FirstSplitIsTheSeries(u, ws, series, sl);
    ParseAtFirstSplit(u, ws, name, |series|, sl);
    MakeGivesFields(u, ws, RawOf(series, sl));
    SelfCheckIsUnreachable(u, ws, h, f);
  }

  lemma OneRendered(series: string, t: Token)
    ensures series + Render([t]) == series + " " + Text(t) + ".cbz"
  {
    assert [t][1..] == [] && Render([]) == ".cbz";
    assert Render([t]) == " " + Text(t) + ".cbz";
  }

  lemma SeriesComesBack(u: Unicode, ws: Words, series: string, volume: Option<string>, issue: Option<string>,
                        chapter: Option<string>)
    requires Sane(u) && IsSeries(u, ws, series) && (issue.None? || chapter.None?)
    requires volume.Some? ==> Digits(volume.value)
    requires issue.Some? ==> Digits(issue.value)
    requires chapter.Some? ==> Digits(chapter.value)
    ensures Make(u, ws, RawOf(series, NO_SLOTS.(volume := volume, issue := issue, chapter := chapter)))
      == Ok(OnlySeries(series).(volume := Stripped(volume), issue := Stripped(issue), chapter := Stripped(chapter)))
  {
    hide IsNumber, CanonicalNumber, StripZeros;
    SanitizeOfClean(u, series);
    if volume.Some? {
      WholeNumberIsEndpoint(volume.value);
    }
    if issue.Some? {
      WholeNumberIsEndpoint(issue.value);
    }
    if chapter.Some? {
      WholeNumberIsEndpoint(chapter.value);
    }
  }

  function Stripped(o: Option<string>): Option<string> {
    if o.Some? then Some(StripZeros(o.value)) else None
  }

  lemma VolumeOnly(series: string, p: string, c: string)
    ensures Tokens(NO_SLOTS.(volume := Some(p))) == [Volume(p)] && Text(Volume(p)) == "v" + p
    ensures NameOf(OnlySeries(series).(volume := Some(c))) == series + " " + ("v" + Pad(c, 2)) + ".cbz"
  {
    hide Pad, Render;
    assert [Volume(p)] + [] == [Volume(p)] && [Volume(Pad(c, 2))] + [] == [Volume(Pad(c, 2))];
    OneRendered(series, Volume(Pad(c, 2)));
  }

  /** `Batman v1.cbz` is refused and `Batman v01.cbz` is volume 1: a whole volume number has two digits, or more and no
      leading zero. */
  lemma VolumeSpelling(u: Unicode, ws: Words, h: Host, series: string, p: string)
    requires Sane(u) && SafeWords(ws) && IsSeries(u, ws, series) && Digits(p)
    requires Accepts(h, series + " " + ("v" + p) + ".cbz")
    ensures var parsed := Parse(u, ws, h, series + " " + ("v" + p) + ".cbz");
      && (parsed.Ok? <==> |p| == 2 || (|p| > 2 && p[0] != '0'))
      && (parsed.Ok? ==> parsed == Ok(OnlySeries(series).(volume := Some(StripZeros(p)))))
  {
    hide IsSeries, SafeWords, Pad, IsNumber, StripZeros, NameOf, Tokens, Text, Parse, Accepts;
    var sl := NO_SLOTS.(volume := Some(p));
    var f := OnlySeries(series).(volume := Some(StripZeros(p)));
    WholeNumberIsEndpoint(p);
    SeriesComesBack(u, ws, series, Some(p), None, None);
    VolumeOnly(series, p, StripZeros(p));
    OneTokenName(u, ws, h, series, sl, Volume(p), f);
    PaddedExactly(p, 2);
    SameNumber(series, "v", p, Pad(StripZeros(p), 2));
  }

  lemma IssueOnly(series: string, p: string, c: string)
    ensures Tokens(NO_SLOTS.(issue := Some(p))) == [Issue(p)] && Text(Issue(p)) == "#" + p
    ensures NameOf(OnlySeries(series).(issue := Some(c))) == series + " " + ("#" + Pad(c, 3)) + ".cbz"
  {
    hide Pad, Render;
    assert [Issue(p)] + [] == [Issue(p)] && [Issue(Pad(c, 3))] + [] == [Issue(Pad(c, 3))];
    OneRendered(series, Issue(Pad(c, 3)));
  }

  lemma IssueSpelling(u: Unicode, ws: Words, h: Host, series: string, p: string)
    requires Sane(u) && SafeWords(ws) && IsSeries(u, ws, series) && Digits(p)
    requires Accepts(h, series + " " + ("#" + p) + ".cbz")
    ensures var parsed := Parse(u, ws, h, series + " " + ("#" + p) + ".cbz");
      && (parsed.Ok? <==> |p| == 3 || (|p| > 3 && p[0] != '0'))
      && (parsed.Ok? ==> parsed == Ok(OnlySeries(series).(issue := Some(StripZeros(p)))))
  {
    hide IsSeries, SafeWords, Pad, IsNumber, StripZeros, NameOf, Tokens, Text, Parse, Accepts;
    var sl := NO_SLOTS.(issue := Some(p));
    var f := OnlySeries(series).(issue := Some(StripZeros(p)));
    WholeNumberIsEndpoint(p);
    SeriesComesBack(u, ws, series, None, Some(p), None);
    IssueOnly(series, p, StripZeros(p));
    OneTokenName(u, ws, h, series, sl, Issue(p), f);
    PaddedExactly(p, 3);
    SameNumber(series, "#", p, Pad(StripZeros(p), 3));
  }

  lemma ChapterOnly(series: string, p: string, c: string)
    ensures Tokens(NO_SLOTS.(chapter := Some(p))) == [Chapter(p)] && Text(Chapter(p)) == "ch. " + p
    ensures NameOf(OnlySeries(series).(chapter := Some(c))) == series + " " + ("ch. " + c) + ".cbz"
  {
    hide Render;
    assert [Chapter(p)] + [] == [Chapter(p)] && [Chapter(c)] + [] == [Chapter(c)];
    OneRendered(series, Chapter(c));
  }

  lemma ChapterSpelling(u: Unicode, ws: Words, h: Host, series: string, p: string)
    requires Sane(u) && SafeWords(ws) && IsSeries(u, ws, series) && Digits(p)
    requires Accepts(h, series + " " + ("ch. " + p) + ".cbz")
    ensures var parsed := Parse(u, ws, h, series + " " + ("ch. " + p) + ".cbz");
      && (parsed.Ok? <==> p == "0" || p[0] != '0')
      && (parsed.Ok? ==> parsed == Ok(OnlySeries(series).(chapter := Some(StripZeros(p)))))
  {
    hide IsSeries, SafeWords, IsNumber, StripZeros, NameOf, Tokens, Text, Parse, Accepts;
    var sl := NO_SLOTS.(chapter := Some(p));
    var f := OnlySeries(series).(chapter := Some(StripZeros(p)));
    WholeNumberIsEndpoint(p);
    SeriesComesBack(u, ws, series, None, None, Some(p));
    ChapterOnly(series, p, StripZeros(p));
    OneTokenName(u, ws, h, series, sl, Chapter(p), f);
    DigitsAreZerosThen(p);
    SameNumber(series, "ch. ", p, StripZeros(p));
  }

  lemma SameNumber(series: string, mark: string, p: string, q: string)
    ensures series + " " + (mark + p) + ".cbz" == series + " " + (mark + q) + ".cbz" <==> p == q
  {
    var a, b := series + " " + (mark + p) + ".cbz", series + " " + (mark + q) + ".cbz";
    var k := |series| + 1 + |mark|;
    assert a[k..|a| - 4] == p && b[k..|b| - 4] == q;
  }

  // ------------------------------------------------------------ what construction makes of numbers

  /** Integers become their decimal text. */
  lemma IntegersAreTheirText(n: int)
    ensures NumberArg(Some(IntArg(n))) == Err(MalformedNumber) <==> n < 0
    ensures n >= 0 ==> NumberArg(Some(IntArg(n))).Ok?
    ensures n >= 0 ==> (
      var s := NumberArg(Some(IntArg(n))).value;
      s.Some? && Digits(s.value) && ValueOf(s.value) == n && (s.value[0] == '0' ==> s.value == "0"))
  {
    if n >= 0 {
      NatTextShape(n);
    }
  }

  lemma EndpointKeepsValue(s: string)
    requires IsEndpoint(s)
    ensures var c := CanonicalEndpoint(s);
      DecimalOf(c) == DecimalOf(s) && c[IndexOf(c, '.')..] == s[IndexOf(s, '.')..] && (c[0] == '0' ==> IndexOf(c, '.') == 1)
  {
    var whole, fraction := EndpointParts(s);
    var w := StripZeros(whole);
    DigitsAreZerosThen(whole);
    EndpointOf(whole, fraction);
    EndpointOf(w, fraction);
    var c := w + fraction;
    assert s[..|whole|] == whole && s[|whole|..] == fraction && c[..|w|] == w && c[|w|..] == fraction;
    assert fraction != "" ==> s[|whole| + 1..] == fraction[1..] == c[|w| + 1..];
  }

  /** A text is a number when it is one or two endpoints and the second is larger. Either endpoint keeps its value and the
      text of its fraction, and loses leading zeros. */
  lemma TextsKeepTheirValue(s: string)
    ensures var k := IndexOf(s, '-'); var r := NumberArg(Some(TextArg(s)));
      && (r != Err(MalformedNumber) <==> r.Ok?)
      && (r.Ok? <==> IsNumber(s) && (k < |s| ==> DecimalOf(s[..k]) < DecimalOf(s[k + 1..])))
      && (r.Ok? ==> r.value == Some(if k == |s| then CanonicalEndpoint(s)
                                    else CanonicalEndpoint(s[..k]) + "-" + CanonicalEndpoint(s[k + 1..])))
  {
    hide CanonicalEndpoint, IsNumber, DecimalOf, IndexOf;
    var k := IndexOf(s, '-');
    assert k == |s| ==> s[..k] == s;
    EndsKeepTheirValue(s);
  }

  lemma EndsKeepTheirValue(s: string)
    ensures var k := IndexOf(s, '-');
      IsNumber(s) && k < |s| ==>
        && DecimalOf(CanonicalEndpoint(s[..k])) == DecimalOf(s[..k])
        && DecimalOf(CanonicalEndpoint(s[k + 1..])) == DecimalOf(s[k + 1..])
  {
    hide CanonicalEndpoint, IsEndpoint, DecimalOf, IndexOf;
    var k := IndexOf(s, '-');
    if IsNumber(s) && k < |s| {
      EndpointKeepsValue(s[..k]);
      EndpointKeepsValue(s[k + 1..]);
    }
  }

  lemma {:induction false} ValueBounds(s: string)
    requires Digits(s)
    ensures ValueOf(s) < Power10(|s|) && (s[0] != '0' <==> ValueOf(s) >= Power10(|s| - 1))
    decreases |s|
  {
    if |s| > 1 {
      var init := s[..|s| - 1];
      assert Digits(init);
      ValueBounds(init);
    } else {
      assert s[..0] == "" && ValueOf("") == 0 && ValueOf(s) == DigitValue(s[0]);
    }
  }

  function Power10(n: nat): nat {
    if n == 0 then 1 else 10 * Power10(n - 1)
  }

  lemma {:induction false} FirstDigitCounts(d: char, rest: string)
    requires IsDigit(d) && forall i | 0 <= i < |rest| :: IsDigit(rest[i])
    ensures ValueOf([d] + rest) == DigitValue(d) * Power10(|rest|) + ValueOf(rest)
    decreases |rest|
  {
    var s := [d] + rest;
    if rest == "" {
      assert s[..0] == "" && ValueOf("") == 0;
    } else {
      var init := rest[..|rest| - 1];
      assert s[..|s| - 1] == [d] + init && s[|s| - 1] == rest[|rest| - 1];
      FirstDigitCounts(d, init);
    }
  }

  lemma {:induction false} RealProduct(d: nat, p: nat)
    ensures (d * p) as real == d as real * p as real
  {
    if d > 0 {
      RealProduct(d - 1, p);
      assert d * p == (d - 1) * p + p;
    }
  }

  lemma Tenth(d: real, r: real, p: real)
    ensures ((d + r) / 10.0) * (10.0 * p) == d * p + r * p
  {
    var q := (d + r) / 10.0;
    assert q * (10.0 * p) == (q * 10.0) * p;
  }

  lemma {:induction false} FractionIsRead(f: string)
    requires forall i | 0 <= i < |f| :: IsDigit(f[i])
    ensures FractionOf(f) * Power10(|f|) as real == ValueOf(f) as real
  {
    hide ValueOf, DigitValue;
    if f == "" {
      NoDigits();
    } else {
      var d, rest, p := DigitValue(f[0]), f[1..], Power10(|f| - 1);
      FractionIsRead(rest);
      FirstDigitCounts(f[0], rest);
      assert f == [f[0]] + rest;
      RealProduct(d, p);
      Tenth(d as real, FractionOf(rest), p as real);
      assert Power10(|f|) == 10 * p && FractionOf(f) == (d as real + FractionOf(rest)) / 10.0;
    }
  }

  lemma NoDigits()
    ensures ValueOf("") == 0 && FractionOf("") == 0.0 && Power10(0) == 1
  {
  }

  lemma DecimalParts(whole: string, f: string)
    requires Digits(whole)
    ensures DecimalOf(whole) == ValueOf(whole) as real
    ensures DecimalOf(whole + "." + f) == ValueOf(whole) as real + FractionOf(f)
  {
    hide ValueOf, FractionOf, IndexOf;
    var s := whole + "." + f;
    assert '.' !in whole;
    assert whole[..|whole|] == whole && s[..|whole|] == whole && s[|whole| + 1..] == f;
    IndexOfIs(whole, '.', |whole|);
    IndexOfIs(s, '.', |whole|);
  }

  /** A decimal has the value it is read with: the whole part, and the digits behind the point as tenths, hundredths and so
      on. */
  lemma DecimalsAreRead(whole: string, f: string)
    requires Digits(whole) && forall i | 0 <= i < |f| :: IsDigit(f[i])
    ensures DecimalOf(whole) == ValueOf(whole) as real
    ensures DecimalOf(whole + "." + f) * Power10(|f|) as real == (ValueOf(whole) * Power10(|f|) + ValueOf(f)) as real
  {
    hide ValueOf, FractionOf, Power10, DecimalOf;
    DecimalParts(whole, f);
    FractionIsRead(f);
    var v, p := ValueOf(whole), Power10(|f|);
    RealProduct(v, p);
    Distributes(v as real, FractionOf(f), p as real);
    RealSum(v * p, ValueOf(f));
  }

  lemma RealSum(x: nat, y: nat)
    ensures (x + y) as real == x as real + y as real
  {
  }

  lemma Distributes(x: real, y: real, p: real)
    ensures (x + y) * p == x * p + y * p
  {
  }

  /** A year is a whole number of four digits, the first not zero; a version any whole number without leading zeros. */
  lemma YearsAndVersions(s: string)
    ensures YearArg(Some(TextArg(s)))
      == if Digits(s) && |s| == 4 && s[0] != '0' then Ok(Some(ValueOf(s))) else Err(MalformedYear)
    ensures VersionArg(Some(TextArg(s)))
      == if Digits(s) && s[0] != '0' then Ok(Some(ValueOf(s))) else Err(MalformedVersion)
  {
    if Digits(s) {
      ValueBounds(s);
      PowersArePositive(|s| - 1);
      assert Power10(0) == 1 && Power10(1) == 10 && Power10(2) == 100 && Power10(3) == 1000 && Power10(4) == 10000;
    }
  }

  lemma {:induction false} PowersArePositive(n: nat)
    ensures Power10(n) >= 1
  {
    if n > 0 {
      PowersArePositive(n - 1);
    }
  }

  /** Integers are years and versions in the same ranges, nothing else than integers and texts is a number, and what is
      absent stays absent. */
  lemma OtherArguments(n: int)
    ensures YearArg(Some(IntArg(n))) == if 1000 <= n <= 9999 then Ok(Some(n)) else Err(MalformedYear)
    ensures VersionArg(Some(IntArg(n))) == if n >= 1 then Ok(Some(n)) else Err(MalformedVersion)
    ensures NumberArg(Some(OtherArg)) == Err(MalformedNumber) && NumberArg(None) == Ok(None)
    ensures YearArg(Some(OtherArg)) == Err(MalformedYear) && YearArg(None) == Ok(None)
    ensures VersionArg(Some(OtherArg)) == Err(MalformedVersion) && VersionArg(None) == Ok(None)
  {
  }

  /** Every argument construction takes on its own is well formed. */
  predicate WellFormed(raw: RawFields) {
    && NumberArg(raw.volume).Ok? && NumberArg(raw.issue).Ok? && NumberArg(raw.chapter).Ok?
    && YearArg(raw.year).Ok? && VersionArg(raw.version).Ok? && YearArg(raw.seriesYear).Ok?
  }

  predicate NoNumbering(raw: RawFields) {
    raw.volume.None? && raw.issue.None? && raw.chapter.None?
  }

  /** The arguments fit together: not both an issue and a chapter, words of the lists, a collection only of volumes, and a
      series year only with a number. */
  predicate FitTogether(ws: Words, raw: RawFields) {
    && (raw.issue.None? || raw.chapter.None?)
    && (raw.edition.Some? ==> raw.edition.value in ws.editions)
    && (raw.special.Some? ==> raw.special.value in ws.specials)
    && (raw.collection.Some? ==>
          raw.collection.value == "TPB" && raw.volume.Some? && raw.issue.None? && raw.chapter.None?)
    && (raw.seriesYear.Some? ==> !NoNumbering(raw))
  }

  lemma PresentStays(number: Option<Arg>, year: Option<Arg>)
    ensures NumberArg(number).Ok? ==> (NumberArg(number).value.Some? <==> number.Some?)
    ensures NumberArg(number).Err? ==> NumberArg(number).error == MalformedNumber
    ensures YearArg(year).Ok? ==> (YearArg(year).value.Some? <==> year.Some?)
    ensures YearArg(year).Err? ==> YearArg(year).error == MalformedYear
    ensures VersionArg(year).Err? ==> VersionArg(year).error == MalformedVersion
  {
  }

  lemma NumbersAcceptedExactly(series: string, raw: RawFields)
    ensures MakeNumbers(series, raw).Ok? <==> WellFormed(raw) && (raw.seriesYear.Some? ==> !NoNumbering(raw))
    ensures MakeNumbers(series, raw).Err? ==>
      match MakeNumbers(series, raw).error
      case MalformedNumber => NumberArg(raw.volume).Err? || NumberArg(raw.issue).Err? || NumberArg(raw.chapter).Err?
      case MalformedYear => YearArg(raw.year).Err? || YearArg(raw.seriesYear).Err?
      case MalformedVersion => VersionArg(raw.version).Err?
      case SeriesYearWithoutNumbering => raw.seriesYear.Some? && NoNumbering(raw)
      case _ => false
  {
    hide NumberArg, YearArg, VersionArg;
    PresentStays(raw.volume, raw.year);
    PresentStays(raw.issue, raw.version);
    PresentStays(raw.chapter, raw.seriesYear);
  }

  /** Construction accepts exactly the well-formed arguments that fit together, with a name that is left by sanitising and
      does not end in a token; and every refusal has the error of its reason. */
  lemma MakeAcceptsExactly(u: Unicode, ws: Words, raw: RawFields)
    ensures var series := Sanitize(u, raw.series);
      Make(u, ws, raw).Ok? <==>
        series != "" && !EndsInToken(u, ws, series) && WellFormed(raw) && FitTogether(ws, raw)
    ensures Make(u, ws, raw).Err? ==>
      match Make(u, ws, raw).error
      case EmptySeriesName => Sanitize(u, raw.series) == ""
      case AmbiguousSeriesName => EndsInToken(u, ws, Sanitize(u, raw.series))
      case IssueAndChapter => raw.issue.Some? && raw.chapter.Some?
      case UnknownEdition => raw.edition.Some? && raw.edition.value !in ws.editions
      case UnknownSpecialWord => raw.special.Some? && raw.special.value !in ws.specials
      case InvalidCollection =>
        raw.collection.Some? && (raw.collection.value != "TPB" || raw.volume.None? || raw.issue.Some? || raw.chapter.Some?)
      case MalformedNumber => NumberArg(raw.volume).Err? || NumberArg(raw.issue).Err? || NumberArg(raw.chapter).Err?
      case MalformedYear => YearArg(raw.year).Err? || YearArg(raw.seriesYear).Err?
      case MalformedVersion => VersionArg(raw.version).Err?
      case SeriesYearWithoutNumbering => raw.seriesYear.Some? && NoNumbering(raw)
      case _ => false
  {
    hide Sanitize, EndsInToken, MakeNumbers, WellFormed;
    NumbersAcceptedExactly(Sanitize(u, raw.series), raw);
  }

  // ------------------------------------------------------------ what the host refuses

  /** `CON .x.cbz` is reserved when `CON` is: spaces and anything behind the first dot do not count. */
  lemma ReservedStem(h: Host, stem: string, spaces: nat, rest: string)
    requires '.' !in stem && (stem == "" || stem[|stem| - 1] != ' ')
    ensures IsReserved(h, stem + Spaces(spaces) + "." + rest) <==> h.upper(stem) in h.reserved
  {
    var s := stem + Spaces(spaces);
    var name := s + "." + rest;
    assert name[..|s|] == s && '.' !in s;
    IndexOfIs(name, '.', |s|);
    SpacesStripped(stem, spaces);
  }

  function Spaces(n: nat): (s: string)
    ensures |s| == n && forall i | 0 <= i < n :: s[i] == ' '
  {
    if n == 0 then "" else Spaces(n - 1) + " "
  }

  lemma {:induction false} SpacesStripped(stem: string, n: nat)
    requires stem == "" || stem[|stem| - 1] != ' '
    ensures StripSpacesRight(stem + Spaces(n)) == stem
    decreases n
  {
    var s := stem + Spaces(n);
    if n == 0 {
      assert s == stem;
    } else {
      assert s[..|s| - 1] == stem + Spaces(n - 1);
      SpacesStripped(stem, n - 1);
    }
  }

  /** The length counts code units: two for a character beyond 0xFFFF, one for any other. */
  lemma {:induction false} LengthCounts(s: string, t: string)
    ensures Utf16Length(s + t) == Utf16Length(s) + Utf16Length(t)
    ensures forall c: char :: Utf16Length([c]) == if c as int > 0xFFFF then 2 else 1
  {
    assert forall c: char :: [c][1..] == [];
    if s == "" {
      assert s + t == t;
    } else {
      assert (s + t)[1..] == s[1..] + t;
      LengthCounts(s[1..], t);
    }
  }
}
