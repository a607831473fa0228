/**
 Formatting and parsing canonical names, and that they are inverse (scripts/cbz_canonical_name.py). Formatting never
 needs its own self-check, and parsing accepts exactly what formatting produces.
 */
module CanonicalFormat {
  import opened Outcomes
  import opened CanonicalNumbers
  import opened CanonicalTokens
  import opened SeriesText
  import opened CanonicalName

  // ------------------------------------------------------------ the text of a name

  function OptionText(o: Option<nat>): Option<string> {
    if o.Some? then Some(NatText(o.value)) else None
  }

  function OptionPad(o: Option<string>, width: nat): Option<string> {
    if o.Some? then Some(Pad(o.value, width)) else None
  }

  /** The groups the fields are written in. */
  function SlotsOf(f: Fields): Slots {
    Slots(OptionText(f.seriesYear), f.special, OptionPad(f.volume, VOLUME_WIDTH), OptionPad(f.issue, ISSUE_WIDTH),
          f.chapter, OptionText(f.year), f.collection.Some?, f.edition, OptionText(f.version))
  }

  /** The name of the fields: the series, then its tokens. */
  function NameOf(f: Fields): string {
    f.series + Render(Tokens(SlotsOf(f)))
  }

  /** `" ".join(parts)` */
  function Joined(parts: seq<string>): string {
    if parts == [] then "" else if |parts| == 1 then parts[0] else parts[0] + " " + Joined(parts[1..])
  }

  lemma {:induction false} JoinedAppend(parts: seq<string>, last: string)
    requires parts != []
    ensures Joined(parts + [last]) == Joined(parts) + " " + last
  {
    if |parts| == 1 {
      assert parts + [last] == [parts[0], last];
      assert [parts[0], last][1..] == [last];
    } else {
      assert (parts + [last])[1..] == parts[1..] + [last];
      JoinedAppend(parts[1..], last);
    }
  }

  /** `parts` joined and the tokens `left` spell the name. */
  ghost predicate Written(name: string, parts: seq<string>, left: seq<Token>) {
    parts != [] && Joined(parts) + Render(left) == name
  }

  lemma RenderPrepend(t: Option<Token>, ts: seq<Token>)
    ensures Render(Prepend(t, ts)) == (if t.Some? then " " + Text(t.value) else "") + Render(ts)
  {
  }

  lemma JoinedMore(parts: seq<string>, text: string, rest: string)
    requires parts != []
    ensures Joined(parts + [text]) + rest == Joined(parts) + (" " + text + rest)
  {
    JoinedAppend(parts, text);
    assert Joined(parts) + " " + text + rest == Joined(parts) + (" " + text + rest);
  }

  /** One optional part appended to the list is one optional token written. */
  lemma WriteOne(name: string, parts: seq<string>, t: Option<Token>, left: seq<Token>)
    requires Written(name, parts, Prepend(t, left))
    ensures Written(name, if t.Some? then parts + [Text(t.value)] else parts, left)
  {
    RenderPrepend(t, left);
    if t.Some? {
      JoinedMore(parts, Text(t.value), Render(left));
    }
  }

  lemma FirstPart(series: string, year: Option<string>, t: Option<Token>, left: seq<Token>)
    requires t == if year.Some? then Some(SeriesYear(year.value)) else None
    ensures Written(series + Render(Prepend(t, left)),
                    [series + (if year.Some? then " (" + year.value + ")" else "")], left)
  {
    RenderPrepend(t, left);
    if year.Some? {
      assert " " + Text(t.value) == " (" + year.value + ")";
    } else {
      assert series + "" == series;
    }
  }

  /** `_assemble`, part by part. */
  method Assemble(f: Fields) returns (name: string)
    requires f.collection.Some? ==> f.collection.value == "TPB"
    ensures name == NameOf(f)
  {
    ghost var sl := SlotsOf(f);
    var parts := [f.series + (if f.seriesYear.Some? then " (" + NatText(f.seriesYear.value) + ")" else "")];
    FirstPart(f.series, sl.seriesYear, SeriesYearToken(sl), FromSpecial(sl));
    WriteOne(NameOf(f), parts, SpecialToken(sl), FromVolume(sl));
    if f.special.Some? {
      parts := parts + [f.special.value];
    }
    WriteOne(NameOf(f), parts, VolumeToken(sl), FromIssue(sl));
    if f.volume.Some? {
      var padded := PadNumber(f.volume.value, VOLUME_WIDTH);
      parts := parts + ["v" + padded];
    }
    WriteOne(NameOf(f), parts, IssueToken(sl), FromChapter(sl));
    if f.issue.Some? {
      var padded := PadNumber(f.issue.value, ISSUE_WIDTH);
      parts := parts + ["#" + padded];
    }
    WriteOne(NameOf(f), parts, ChapterToken(sl), FromYear(sl));
    if f.chapter.Some? {
      parts := parts + ["ch. " + f.chapter.value];
    }
    parts := AssembleTail(f, parts);
    name := Joined(parts) + EXTENSION;
  }

  /** The parts after the numbering. */
  method AssembleTail(f: Fields, numbered: seq<string>) returns (parts: seq<string>)
    requires f.collection.Some? ==> f.collection.value == "TPB"
    requires Written(NameOf(f), numbered, FromYear(SlotsOf(f)))
    ensures Written(NameOf(f), parts, [])
  {
    ghost var sl := SlotsOf(f);
    parts := numbered;
    WriteOne(NameOf(f), parts, YearToken(sl), FromCollection(sl));
    if f.year.Some? {
      parts := parts + ["(" + NatText(f.year.value) + ")"];
    }
    WriteOne(NameOf(f), parts, CollectionToken(sl), FromEdition(sl));
    if f.collection.Some? {
      assert "(" + f.collection.value + ")" == "(TPB)";
      parts := parts + ["(" + f.collection.value + ")"];
    }
    WriteOne(NameOf(f), parts, EditionToken(sl), FromVersion(sl));
    if f.edition.Some? {
      parts := parts + ["(" + f.edition.value + ")"];
    }
    WriteOne(NameOf(f), parts, VersionToken(sl), []);
    if f.version.Some? {
      parts := parts + ["[v" + NatText(f.version.value) + "]"];
    }
  }

  // ------------------------------------------------------------ the fields come back from their own text

  /** The arguments the parser constructs with. */
  function RawOf(series: string, sl: Slots): RawFields {
    RawFields(series, Given(sl.volume), Given(sl.issue), Given(sl.chapter), Given(sl.year), sl.edition, sl.special,
              Given(sl.version), if sl.collection then Some("TPB") else None, Given(sl.seriesYear))
  }

  function Given(o: Option<string>): Option<Arg> {
    if o.Some? then Some(TextArg(o.value)) else None
  }

  lemma PaddedNumberComesBack(o: Option<string>, width: nat)
    requires o.Some? ==> IsCanonical(o.value)
    ensures NumberArg(Given(OptionPad(o, width))) == Ok(o)
    ensures o.Some? ==> IsNumber(Pad(o.value, width))
  {
    if o.Some? {
      CanonicalOfPadded(o.value, width);
    }
  }

  lemma ChapterComesBack(o: Option<string>)
    requires o.Some? ==> IsCanonical(o.value)
    ensures NumberArg(Given(o)) == Ok(o)
    ensures o.Some? ==> IsNumber(o.value)
  {
  }

  lemma YearComesBack(o: Option<nat>)
    requires o.Some? ==> 1000 <= o.value <= 9999
    ensures YearArg(Given(OptionText(o))) == Ok(o)
    ensures o.Some? ==> |NatText(o.value)| == 4
  {
    if o.Some? {
      YearTextShape(o.value);
    }
  }

  lemma VersionComesBack(o: Option<nat>)
    requires o.Some? ==> o.value >= 1
    ensures VersionArg(Given(OptionText(o))) == Ok(o)
    ensures o.Some? ==> NatText(o.value)[0] != '0'
  {
    if o.Some? {
      NatTextShape(o.value);
    }
  }

  lemma NumbersOfSlots(f: Fields)
    requires AreNumbers(f)
    ensures MakeNumbers(f.series, RawOf(f.series, SlotsOf(f))) == Ok(f.(
      collection := if f.collection.Some? then Some("TPB") else None))
  {
    PaddedNumberComesBack(f.volume, VOLUME_WIDTH);
    PaddedNumberComesBack(f.issue, ISSUE_WIDTH);
    ChapterComesBack(f.chapter);
    YearComesBack(f.year);
    YearComesBack(f.seriesYear);
    VersionComesBack(f.version);
  }

  /** Constructing from the groups of valid fields gives those fields. */
  lemma MakeOfSlots(u: Unicode, ws: Words, f: Fields)
    requires Sane(u) && IsFields(u, ws, f)
    ensures Make(u, ws, RawOf(f.series, SlotsOf(f))) == Ok(f)
  {
    SanitizeOfClean(u, f.series);
    NumbersOfSlots(f);
  }

  /** The fields of the invariant are exactly those that construction returns. */
  lemma FieldsAreWhatConstructionGives(u: Unicode, ws: Words, f: Fields)
    requires Sane(u)
    ensures IsFields(u, ws, f) <==> exists raw :: Make(u, ws, raw) == Ok(f)
  {
    if IsFields(u, ws, f) {
      MakeOfSlots(u, ws, f);
    }
    if raw :| Make(u, ws, raw) == Ok(f) {
      MakeGivesFields(u, ws, raw);
    }
  }

  // ------------------------------------------------------------ the groups of a name match the pattern

  /** `s` starts with a space and primary numbering. */
  predicate SpacedNumbering(s: string) {
    s != "" && s[0] == ' ' && NumberingStarts(s[1..])
  }

  lemma NumberedRenders(t: Token, rest: string)
    requires Numbered(t) && IsNumber(Content(t))
    ensures SpacedNumbering(" " + Text(t) + rest)
  {
    hide IsNumber, Content;
    NumberedStart(t);
    var s, text := " " + Text(t) + rest, Text(t);
    assert s[1..] == text + rest;
    assert forall i | 0 <= i < |text| :: s[1..][i] == text[i];
  }

  /** Primary numbering present is primary numbering at the start. */
  lemma NumberingPresent(sl: Slots)
    requires sl.volume.Some? || sl.issue.Some? || sl.chapter.Some?
    requires sl.volume.Some? ==> IsNumber(sl.volume.value)
    requires sl.issue.Some? ==> IsNumber(sl.issue.value)
    requires sl.chapter.Some? ==> IsNumber(sl.chapter.value)
    ensures SpacedNumbering(Render(FromVolume(sl)))
  {
    if sl.volume.Some? {
      RenderPrepend(VolumeToken(sl), FromIssue(sl));
      NumberedRenders(Volume(sl.volume.value), Render(FromIssue(sl)));
    } else if sl.issue.Some? {
      RenderPrepend(IssueToken(sl), FromChapter(sl));
      NumberedRenders(Issue(sl.issue.value), Render(FromChapter(sl)));
    } else {
      RenderPrepend(ChapterToken(sl), FromYear(sl));
      NumberedRenders(Chapter(sl.chapter.value), Render(FromYear(sl)));
    }
  }

  lemma LookaheadPastWord(ws: Words, w: string, after: string)
    requires w in ws.specials && SpacedNumbering(after)
    ensures Lookahead(ws, " " + w + after)
  {
    var s := " " + w + after;
    assert s[1..] == w + after == w + " " + after[1..];
    assert s[1..][|w| + 1..] == after[1..];
    assert w + " " <= s[1..];
  }

  /** After a series year stands primary numbering, behind a special word at most. */
  lemma NumberingFollows(ws: Words, sl: Slots)
    requires sl.volume.Some? || sl.issue.Some? || sl.chapter.Some?
    requires sl.volume.Some? ==> IsNumber(sl.volume.value)
    requires sl.issue.Some? ==> IsNumber(sl.issue.value)
    requires sl.chapter.Some? ==> IsNumber(sl.chapter.value)
    requires sl.special.Some? ==> sl.special.value in ws.specials
    ensures Lookahead(ws, Render(FromSpecial(sl)))
  {
    NumberingPresent(sl);
    RenderPrepend(SpecialToken(sl), FromVolume(sl));
    if sl.special.Some? {
      LookaheadPastWord(ws, sl.special.value, Render(FromVolume(sl)));
    }
  }

  lemma SlotsOfFieldsMatch(ws: Words, f: Fields)
    requires AreWords(ws, f) && AreNumbers(f)
    ensures SlotsMatch(ws, SlotsOf(f))
  {
    PaddedNumberComesBack(f.volume, VOLUME_WIDTH);
    PaddedNumberComesBack(f.issue, ISSUE_WIDTH);
    ChapterComesBack(f.chapter);
    YearComesBack(f.year);
    YearComesBack(f.seriesYear);
    VersionComesBack(f.version);
    if f.seriesYear.Some? {
      NumberingFollows(ws, SlotsOf(f));
    }
  }

  // ------------------------------------------------------------ parsing

  /** The pattern matches the whole name with the series ending at `k` and the groups `sl`. */
  ghost predicate MatchesAt(ws: Words, name: string, k: nat, sl: Slots) {
    && 0 < k <= |name| && '\n' !in name[..k]
    && SlotsMatch(ws, sl) && name[k..] == Render(Tokens(sl))
  }

  ghost predicate SplitsAt(ws: Words, name: string, k: nat) {
    exists sl :: MatchesAt(ws, name, k, sl)
  }

  /** The series group is not greedy: the shortest series that lets the rest match. */
  ghost predicate FirstSplit(ws: Words, name: string, k: nat) {
    SplitsAt(ws, name, k) && forall j: nat | j < k :: !SplitsAt(ws, name, j)
  }

  /** `_parse_unchecked` */
  ghost function ParseUnchecked(u: Unicode, ws: Words, name: string): Result<Fields, NameError> {
    if k: nat :| FirstSplit(ws, name, k) then
      var sl :| MatchesAt(ws, name, k, sl);
      var made := Make(u, ws, RawOf(name[..k], sl));
      if made.Ok? then made else Err(NotCanonical)
    else Err(NotCanonical)
  }

  lemma GroupsAreUnique(ws: Words, name: string, k: nat, a: Slots, b: Slots)
    requires SafeWords(ws) && MatchesAt(ws, name, k, a) && MatchesAt(ws, name, k, b)
    ensures a == b
  {
    TokensAreTail(ws, a);
    TokensAreTail(ws, b);
    RenderInjective(ws, Tokens(a), Tokens(b));
    TokensInjective(a, b);
  }

  lemma FirstSplitIsUnique(ws: Words, name: string, j: nat, k: nat)
    requires FirstSplit(ws, name, j) && FirstSplit(ws, name, k)
    ensures j == k
  {
  }

  lemma ParseAtFirstSplit(u: Unicode, ws: Words, name: string, k: nat, sl: Slots)
    requires SafeWords(ws) && FirstSplit(ws, name, k) && MatchesAt(ws, name, k, sl)
    ensures var made := Make(u, ws, RawOf(name[..k], sl));
      ParseUnchecked(u, ws, name) == if made.Ok? then made else Err(NotCanonical)
  {
    forall j: nat | FirstSplit(ws, name, j) ensures j == k {
      FirstSplitIsUnique(ws, name, j, k);
    }
    forall other | MatchesAt(ws, name, k, other) ensures other == sl {
      GroupsAreUnique(ws, name, k, other, sl);
    }
  }

  lemma Beheaded(series: string, j: nat, after: string)
    requires j < |series|
    ensures series[j..] + after == (series + after)[j..]
    ensures series[j..] == SuffixOf(series, |series[j..]|)
  {
  }

  /** A match that takes less than the whole series ends inside or at a token of the series. */
  lemma ShorterMatch(ws: Words, series: string, mine: Slots, j: nat, theirs: Slots)
    requires SafeWords(ws) && SlotsMatch(ws, mine) && j < |series|
    requires series[|series| - 1] !in {' ', '.'}
    requires MatchesAt(ws, series + Render(Tokens(mine)), j, theirs)
    ensures EndsInTokenText(ws, series)
  {
    hide SafeWords, SlotsMatch, EndsInTokenText, SuffixOf, Render, Tokens;
    var cut := series[j..];
    TokensAreTail(ws, mine);
    TokensAreTail(ws, theirs);
    Beheaded(series, j, Render(Tokens(mine)));
    CutEndsInToken(ws, series, cut, Tokens(mine), Tokens(theirs));
  }

  /** No shorter series matches: what the series would lose ends in a token, which the guard refuses. */
  lemma NoShorterSeries(u: Unicode, ws: Words, series: string, mine: Slots, j: nat)
    requires Sane(u) && SafeWords(ws) && SlotsMatch(ws, mine) && j < |series|
    requires series[|series| - 1] !in {' ', '.'} && !EndsInToken(u, ws, series)
    ensures !SplitsAt(ws, series + Render(Tokens(mine)), j)
  {
    forall theirs ensures !MatchesAt(ws, series + Render(Tokens(mine)), j, theirs) {
      if MatchesAt(ws, series + Render(Tokens(mine)), j, theirs) {
        ShorterMatch(ws, series, mine, j, theirs);
        GuardCoversTokens(u, ws, series);
      }
    }
  }

  /** The first split of a name is at the end of its series. */
  lemma FirstSplitIsTheSeries(u: Unicode, ws: Words, series: string, sl: Slots)
    requires Sane(u) && SafeWords(ws) && SlotsMatch(ws, sl) && IsSeries(u, ws, series)
    ensures var name := series + Render(Tokens(sl));
      FirstSplit(ws, name, |series|) && MatchesAt(ws, name, |series|, sl) && name[..|series|] == series
  {
    var name := series + Render(Tokens(sl));
    assert name[..|series|] == series && name[|series|..] == Render(Tokens(sl));
    assert MatchesAt(ws, name, |series|, sl);
    forall j: nat | j < |series| ensures !SplitsAt(ws, name, j) {
      NoShorterSeries(u, ws, series, sl, j);
    }
  }

  /** The name of valid fields parses back to those fields. */
  lemma RoundTrip(u: Unicode, ws: Words, f: Fields)
    requires Sane(u) && SafeWords(ws) && IsFields(u, ws, f)
    ensures ParseUnchecked(u, ws, NameOf(f)) == Ok(f)
  {
    SlotsOfFieldsMatch(ws, f);
    FirstSplitIsTheSeries(u, ws, f.series, SlotsOf(f));
    ParseAtFirstSplit(u, ws, NameOf(f), |f.series|, SlotsOf(f));
    MakeOfSlots(u, ws, f);
  }

  /** Two different valid field sets never share a name. */
  lemma NamesAreUnambiguous(u: Unicode, ws: Words, f: Fields, g: Fields)
    requires Sane(u) && SafeWords(ws) && IsFields(u, ws, f) && IsFields(u, ws, g)
    requires NameOf(f) == NameOf(g)
    ensures f == g
  {
    RoundTrip(u, ws, f);
    RoundTrip(u, ws, g);
  }

  // ------------------------------------------------------------ formatting

  /** What the host refuses: device names, compared in upper case, and names above a length. */
  datatype Host = Host(upper: string -> string, reserved: set<string>, maxLength: nat)

  function StripSpacesRight(s: string): string {
    if s != "" && s[|s| - 1] == ' ' then StripSpacesRight(s[..|s| - 1]) else s
  }

  /** `_is_reserved`: everything from the first dot, and spaces before it, is ignored. */
  predicate IsReserved(h: Host, name: string) {
    h.upper(StripSpacesRight(name[..IndexOf(name, '.')])) in h.reserved
  }

  /** `_utf16_length` */
  function Utf16Length(s: string): nat {
    if s == "" then 0 else (if s[0] as int >= 0x10000 then 2 else 1) + Utf16Length(s[1..])
  }

  /** What the host accepts of a name. */
  predicate Accepts(h: Host, name: string) {
    !IsReserved(h, name) && Utf16Length(name) <= h.maxLength
  }

  /** `format_canonical_name` */
  ghost function Format(u: Unicode, ws: Words, h: Host, f: Fields): Result<string, NameError> {
    var name := NameOf(f);
    if IsReserved(h, name) then Err(ReservedName)
    else if Utf16Length(name) > h.maxLength then Err(NameTooLong)
    else if ParseUnchecked(u, ws, name) != Ok(f) then Err(AmbiguousSeriesName)
    else Ok(name)
  }

  /** `parse_canonical_name` */
  ghost function Parse(u: Unicode, ws: Words, h: Host, name: string): Result<Fields, NameError> {
    var parsed := ParseUnchecked(u, ws, name);
    if parsed.Err? then parsed
    else if Format(u, ws, h, parsed.value) != Ok(name) then Err(NotCanonical)
    else parsed
  }

  /** The self-check never refuses: formatting valid fields fails only for a reserved or too long name. */
  lemma SelfCheckIsUnreachable(u: Unicode, ws: Words, h: Host, f: Fields)
    requires Sane(u) && SafeWords(ws) && IsFields(u, ws, f)
    ensures Format(u, ws, h, f) != Err(AmbiguousSeriesName)
    ensures Format(u, ws, h, f).Ok? <==> Accepts(h, NameOf(f))
  {
    RoundTrip(u, ws, f);
  }

  lemma ParsedIsFields(u: Unicode, ws: Words, name: string)
    requires Sane(u) && ParseUnchecked(u, ws, name).Ok?
    ensures IsFields(u, ws, ParseUnchecked(u, ws, name).value)
  {
    var k: nat :| FirstSplit(ws, name, k)
      && exists sl | MatchesAt(ws, name, k, sl) ::
        ParseUnchecked(u, ws, name) == Make(u, ws, RawOf(name[..k], sl));
    var sl :| MatchesAt(ws, name, k, sl) && ParseUnchecked(u, ws, name) == Make(u, ws, RawOf(name[..k], sl));
    MakeGivesFields(u, ws, RawOf(name[..k], sl));
  }

  /** Parsing accepts exactly the names formatting gives, and gives the fields they were formatted from. */
  lemma ParseAcceptsExactlyTheImage(u: Unicode, ws: Words, h: Host, name: string, f: Fields)
    requires Sane(u) && SafeWords(ws)
    ensures Parse(u, ws, h, name) == Ok(f) <==> (IsFields(u, ws, f) && Format(u, ws, h, f) == Ok(name))
  {
    if Parse(u, ws, h, name) == Ok(f) {
      ParsedIsFields(u, ws, name);
    }
    if IsFields(u, ws, f) && Format(u, ws, h, f) == Ok(name) {
      RoundTrip(u, ws, f);
    }
  }

  // ------------------------------------------------------------ today's closed lists

  const SPECIAL_WORDS: set<string> :=
    {"Omnibus", "Compilation", "Complete", "Special", "Extra", "Bonus", "Omake", "One-shot"}

  const EDITION_WORDS: set<string> :=
    {"Uncensored", "Decensored", "Colored", "Colorized", "English", "Special Edition", "Limited Edition",
     "Alternate Cover"}

  lemma SpecialIsSafe(w: string)
    requires w in SPECIAL_WORDS
    ensures |w| >= 2 && w[0] !in MARKS && ' ' !in w && '.' !in w
    ensures !(w <= "Edition)") && !("Edition)" <= w) && !(w <= "Cover)") && !("Cover)" <= w)
  {
    assert "Edition)"[0] == 'E' && "Edition)"[1] == 'd' && "Cover)"[0] == 'C' && "Cover)"[1] == 'o' && "Cover)"[2] == 'v';
    assert w[0] == 'E' ==> w[1] == 'x';
    assert w[0] == 'C' ==> w[2] == 'm';
  }

  lemma EditionShape(w: string)
    requires w in EDITION_WORDS
    ensures w != "" && !IsDigit(w[0]) && ')' !in w && w != "TPB"
  {
  }

  lemma SpaceInEdition(w: string, i: nat)
    requires w in EDITION_WORDS && i < |w| && w[i] == ' '
    ensures i > 0 && w[i + 1..] + ")" in {"Edition)", "Cover)"}
  {
    assert "Edition" + ")" == "Edition)" && "Cover" + ")" == "Cover)";
    if w == "Special Edition" {
      assert i == 7 && w[8..] == "Edition";
    } else if w == "Limited Edition" {
      assert i == 7 && w[8..] == "Edition";
    } else if w == "Alternate Cover" {
      assert i == 9 && w[10..] == "Cover";
    }
  }

  lemma EditionIsSafe(ws: Words, w: string, i: nat)
    requires ws.specials == SPECIAL_WORDS && w in EDITION_WORDS && i < |w| && w[i] == ' '
    ensures SafeSecondWord(ws, w, i)
  {
    SpaceInEdition(w, i);
    forall v | v in ws.specials ensures !(v <= w[i + 1..] + ")") && !(w[i + 1..] + ")" <= v) {
      SpecialIsSafe(v);
    }
  }

  /** The lists as they stand keep names unambiguous. */
  lemma TodaysWordsAreSafe(ws: Words)
    requires ws.specials == SPECIAL_WORDS && ws.editions == EDITION_WORDS
    ensures SafeWords(ws)
  {
    forall w | w in ws.specials ensures |w| >= 2 && w[0] !in MARKS && ' ' !in w && '.' !in w {
      SpecialIsSafe(w);
    }
    forall w | w in ws.editions ensures w != "" && !IsDigit(w[0]) && ')' !in w && w != "TPB" {
      EditionShape(w);
    }
    forall w, i | w in ws.editions && 0 <= i < |w| && w[i] == ' ' ensures SafeSecondWord(ws, w, i) {
      EditionIsSafe(ws, w, i);
    }
  }
}
