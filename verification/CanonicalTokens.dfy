/**
 The part of a canonical name after the series: optional tokens in a fixed order, then `.cbz`
 (the grammar of `_CANONICAL_RE` and `_assemble` in scripts/cbz_canonical_name.py), and why it can be read in one
 way only.
 */
module CanonicalTokens {
  import opened CanonicalNumbers

  const EXTENSION := ".cbz"

  /** The two closed lists the pattern and the guard are built from. */
  datatype Words = Words(specials: set<string>, editions: set<string>)

  /** The first characters of the tokens that are not words. */
  const MARKS := {'v', '#', 'c', '(', '['}

  /** What an edit of the closed lists must keep for names to stay unambiguous. */
  ghost predicate SafeWords(ws: Words) {
    && (forall w | w in ws.specials :: |w| >= 2 && w[0] !in MARKS && ' ' !in w && '.' !in w)
    && (forall w | w in ws.editions :: w != "" && !IsDigit(w[0]) && ')' !in w && w != "TPB")
    && forall w, i | w in ws.editions && 0 <= i < |w| && w[i] == ' ' :: SafeSecondWord(ws, w, i)
  }

  /** What follows a space in an edition, with the closing parenthesis, reads as no other token. */
  ghost predicate SafeSecondWord(ws: Words, w: string, i: nat)
    requires i < |w|
  {
    var second := w[i + 1..] + ")";
    i > 0 && second[0] !in MARKS && forall v | v in ws.specials :: !(v <= second) && !(second <= v)
  }

  datatype Token =
    | SeriesYear(text: string)
    | Special(word: string)
    | Volume(number: string)
    | Issue(number: string)
    | Chapter(number: string)
    | Year(text: string)
    | Collection
    | Edition(word: string)
    | Version(number: string)

  function Text(t: Token): string {
    match t
    case SeriesYear(y) => "(" + y + ")"
    case Special(w) => w
    case Volume(n) => "v" + n
    case Issue(n) => "#" + n
    case Chapter(n) => "ch. " + n
    case Year(y) => "(" + y + ")"
    case Collection => "(TPB)"
    case Edition(w) => "(" + w + ")"
    case Version(n) => "[v" + n + "]"
  }

  predicate Shape(ws: Words, t: Token) {
    match t
    case SeriesYear(y) => Digits(y) && |y| == 4
    case Special(w) => w in ws.specials
    case Volume(n) => IsNumber(n)
    case Issue(n) => IsNumber(n)
    case Chapter(n) => IsNumber(n)
    case Year(y) => Digits(y) && |y| == 4
    case Collection => true
    case Edition(w) => w in ws.editions
    case Version(n) => Digits(n) && n[0] != '0'
  }

  function Rank(t: Token): nat {
    match t
    case SeriesYear(_) => 0
    case Special(_) => 1
    case Volume(_) => 2
    case Issue(_) => 3
    case Chapter(_) => 3
    case Year(_) => 4
    case Collection => 5
    case Edition(_) => 6
    case Version(_) => 7
  }

  /** Well-shaped tokens of strictly ascending rank, from `rank` on. */
  predicate From(ws: Words, ts: seq<Token>, rank: nat) {
    ts == [] || (Shape(ws, ts[0]) && Rank(ts[0]) >= rank && From(ws, ts[1..], Rank(ts[0]) + 1))
  }

  function Render(ts: seq<Token>): string {
    if ts == [] then EXTENSION else " " + Text(ts[0]) + Render(ts[1..])
  }

  predicate NumberingStarts(s: string) {
    || (|s| >= 2 && s[0] == 'v' && IsDigit(s[1]))
    || (|s| >= 2 && s[0] == '#' && IsDigit(s[1]))
    || (|s| >= 5 && s[0] == 'c' && s[1] == 'h' && s[2] == '.' && s[3] == ' ' && IsDigit(s[4]))
  }

  /** The lookahead after a series year: a special word or none, then primary numbering. */
  ghost predicate Lookahead(ws: Words, s: string) {
    && s != "" && s[0] == ' '
    && (NumberingStarts(s[1..])
        || exists w | w in ws.specials :: w + " " <= s[1..] && NumberingStarts(s[1..][|w| + 1..]))
  }

  /** What the pattern accepts after the series. */
  ghost predicate IsTail(ws: Words, ts: seq<Token>) {
    From(ws, ts, 0) && (ts != [] && ts[0].SeriesYear? ==> Lookahead(ws, Render(ts[1..])))
  }

  // ------------------------------------------------------------ what tokens look like

  predicate Parenthesised(t: Token) {
    t.SeriesYear? || t.Year? || t.Collection? || t.Edition?
  }

  lemma NumberStart(n: string)
    requires IsNumber(n)
    ensures n != "" && IsDigit(n[0])
  {
  }

  /** What is between the marks of a token. */
  function Content(t: Token): string {
    match t
    case SeriesYear(y) => y
    case Special(w) => w
    case Volume(n) => n
    case Issue(n) => n
    case Chapter(n) => n
    case Year(y) => y
    case Collection => "TPB"
    case Edition(w) => w
    case Version(n) => n
  }

  predicate Numbered(t: Token) {
    t.Volume? || t.Issue? || t.Chapter?
  }

  lemma NumberedStart(t: Token)
    requires Numbered(t) && IsNumber(Content(t))
    ensures var s := Text(t);
      && |s| >= 2
      && (t.Volume? ==> s[0] == 'v' && IsDigit(s[1]))
      && (t.Issue? ==> s[0] == '#' && IsDigit(s[1]))
      && (t.Chapter? ==> |s| >= 5 && s[0] == 'c' && s[1] == 'h' && s[2] == '.' && s[3] == ' ' && IsDigit(s[4]))
  {
    NumberStart(Content(t));
  }

  lemma WordedStart(ws: Words, t: Token)
    requires SafeWords(ws) && Shape(ws, t) && !Numbered(t)
    ensures var s := Text(t);
      && |s| >= 2
      && (Parenthesised(t) ==> s[0] == '(' && s[|s| - 1] == ')')
      && (t.Version? ==> s[0] == '[')
      && (t.Special? ==> s[0] !in MARKS)
      && (t.SeriesYear? || t.Year? ==> IsDigit(s[1]))
      && (t.Collection? || t.Edition? ==> !IsDigit(s[1]))
  {
  }

  lemma LeadingChar(ws: Words, t: Token)
    requires SafeWords(ws) && Shape(ws, t)
    ensures |Text(t)| >= 2
    ensures Parenthesised(t) <==> Text(t)[0] == '('
    ensures t.Volume? <==> Text(t)[0] == 'v'
    ensures t.Issue? <==> Text(t)[0] == '#'
    ensures t.Chapter? <==> Text(t)[0] == 'c'
    ensures t.Version? <==> Text(t)[0] == '['
    ensures t.Special? ==> Text(t)[0] !in MARKS
    ensures Parenthesised(t) ==> Text(t)[|Text(t)| - 1] == ')'
    ensures t.SeriesYear? || t.Year? ==> IsDigit(Text(t)[1])
    ensures t.Collection? || t.Edition? ==> !IsDigit(Text(t)[1])
    ensures t.Volume? || t.Issue? ==> IsDigit(Text(t)[1])
    ensures t.Chapter? ==>
      var s := Text(t); |s| >= 5 && s[1] == 'h' && s[2] == '.' && s[3] == ' ' && IsDigit(s[4])
  {
    if Numbered(t) {
      NumberedStart(t);
    } else {
      WordedStart(ws, t);
    }
  }

  /** A space inside a token: in `ch. N`, or in an edition of several words. */
  lemma SpaceInside(ws: Words, t: Token, i: nat)
    requires SafeWords(ws) && Shape(ws, t) && i < |Text(t)| && Text(t)[i] == ' '
    ensures (t.Chapter? && i == 3) || (t.Edition? && 0 < i <= |t.word| && t.word[i - 1] == ' ')
  {
    match t
    case Volume(n) => NumberHasNoSpace(n);
    case Issue(n) => NumberHasNoSpace(n);
    case Chapter(n) => NumberHasNoSpace(n);
    case _ =>
  }

  lemma NumberHasNoSpace(n: string)
    requires IsNumber(n)
    ensures forall i | 0 <= i < |n| :: n[i] != ' '
  {
    NumberChars(n);
  }

  /** A token text cut at one of its spaces is not a token text. */
  lemma CutIsNoToken(ws: Words, t: Token, i: nat, x: Token)
    requires SafeWords(ws) && Shape(ws, t) && i < |Text(t)| && Text(t)[i] == ' ' && Shape(ws, x)
    ensures Text(x) != Text(t)[..i]
  {
    SpaceInside(ws, t, i);
    var cut := Text(t)[..i];
    if t.Chapter? {
      assert |cut| == 3 && cut[0] == 'c';
    } else {
      assert cut[0] == '(' && |cut| == i && forall j | 0 < j < i :: cut[j] == t.word[j - 1];
      assert SafeSecondWord(ws, t.word, i - 1);
      assert cut[|cut| - 1] != ')';
    }
    LeadingChar(ws, x);
  }

  /** What may follow a token: another token, or the extension and the end. */
  predicate IsRest(s: string) {
    s == EXTENSION || (|s| > |EXTENSION| && s[0] == ' ')
  }

  lemma {:induction false} RenderIsRest(ts: seq<Token>)
    ensures IsRest(Render(ts)) && (ts == [] <==> Render(ts)[0] == '.')
  {
    if ts != [] {
      RenderIsRest(ts[1..]);
    }
  }

  /** A token is not shorter than another one read from the same text. */
  lemma NotShorter(ws: Words, x: Token, rx: string, y: Token, ry: string)
    requires SafeWords(ws) && Shape(ws, x) && Shape(ws, y) && IsRest(rx) && IsRest(ry)
    requires Text(x) + rx == Text(y) + ry
    ensures |Text(x)| >= |Text(y)|
  {
    var n := |Text(x)|;
    if n < |Text(y)| {
      assert (Text(x) + rx)[n] == rx[0];
      assert (Text(y) + ry)[n] == Text(y)[n];
      assert Text(x) == (Text(x) + rx)[..n] == (Text(y) + ry)[..n] == Text(y)[..n];
      CutIsNoToken(ws, y, n, x);
    }
  }

  lemma FirstTokenText(ws: Words, x: Token, rx: string, y: Token, ry: string)
    requires SafeWords(ws) && Shape(ws, x) && Shape(ws, y) && IsRest(rx) && IsRest(ry)
    requires Text(x) + rx == Text(y) + ry
    ensures Text(x) == Text(y) && rx == ry
  {
    NotShorter(ws, x, rx, y, ry);
    NotShorter(ws, y, ry, x, rx);
    assert Text(x) == (Text(x) + rx)[..|Text(x)|];
    assert Text(y) == (Text(y) + ry)[..|Text(y)|];
    assert rx == (Text(x) + rx)[|Text(x)|..];
    assert ry == (Text(y) + ry)[|Text(y)|..];
  }

  /** Tokens of one kind are told apart by their content. */
  lemma ContentOf(t: Token)
    ensures Parenthesised(t) ==> Content(t) == Text(t)[1..|Text(t)| - 1]
    ensures t.Volume? || t.Issue? ==> Content(t) == Text(t)[1..]
    ensures t.Chapter? ==> Content(t) == Text(t)[4..]
    ensures t.Version? ==> Content(t) == Text(t)[2..|Text(t)| - 1]
    ensures t.Special? ==> Content(t) == Text(t)
  {
  }

  /** Only a series year and an issue year look alike. */
  lemma SameText(ws: Words, x: Token, y: Token)
    requires SafeWords(ws) && Shape(ws, x) && Shape(ws, y) && Text(x) == Text(y)
    ensures x == y || (x.SeriesYear? && y == Year(x.text)) || (x.Year? && y == SeriesYear(x.text))
  {
    LeadingChar(ws, x);
    LeadingChar(ws, y);
    ContentOf(x);
    ContentOf(y);
  }

  /** After an issue year no numbering can follow: what may follow starts with a bracket. */
  lemma NoNumberingBeforeBracket(ws: Words, s: string)
    requires SafeWords(ws) && s != "" && s[0] in {'(', '['}
    ensures !Lookahead(ws, " " + s)
  {
  }

  lemma NoNumberingAtToken(ws: Words, t: Token, rest: string)
    requires SafeWords(ws) && Shape(ws, t) && Rank(t) >= 5
    ensures !Lookahead(ws, " " + Text(t) + rest)
  {
    LeadingChar(ws, t);
    NoNumberingBeforeBracket(ws, Text(t) + rest);
    assert " " + (Text(t) + rest) == " " + Text(t) + rest;
  }

  lemma NoNumberingAfterYear(ws: Words, ts: seq<Token>)
    requires SafeWords(ws) && From(ws, ts, 5)
    ensures !Lookahead(ws, Render(ts))
  {
    if ts != [] {
      NoNumberingAtToken(ws, ts[0], Render(ts[1..]));
    }
  }

  lemma FromLater(ws: Words, ts: seq<Token>, rank: nat, earlier: nat)
    requires From(ws, ts, rank) && earlier <= rank
    ensures From(ws, ts, earlier)
  {
  }

  /** Two readings of one text start with the same token, an issue year being one that no numbering follows. */
  lemma FirstToken(ws: Words, x: Token, rx: string, y: Token, ry: string)
    requires SafeWords(ws) && Shape(ws, x) && Shape(ws, y) && IsRest(rx) && IsRest(ry)
    requires " " + Text(x) + rx == " " + Text(y) + ry
    requires (x.SeriesYear? ==> Lookahead(ws, rx)) && (y.SeriesYear? ==> Lookahead(ws, ry))
    requires (x.Year? ==> !Lookahead(ws, rx)) && (y.Year? ==> !Lookahead(ws, ry))
    ensures x == y && rx == ry
  {
    hide SafeWords, Shape, IsRest, Lookahead;
    assert Text(x) + rx == (" " + Text(x) + rx)[1..];
    assert Text(y) + ry == (" " + Text(y) + ry)[1..];
    FirstTokenText(ws, x, rx, y, ry);
    SameText(ws, x, y);
  }

  lemma FirstTokens(ws: Words, a: seq<Token>, b: seq<Token>)
    requires SafeWords(ws) && IsTail(ws, a) && IsTail(ws, b) && Render(a) == Render(b) && a != [] && b != []
    ensures a[0] == b[0] && Render(a[1..]) == Render(b[1..])
  {
    RenderIsRest(a[1..]);
    RenderIsRest(b[1..]);
    if a[0].Year? {
      NoNumberingAfterYear(ws, a[1..]);
    }
    if b[0].Year? {
      NoNumberingAfterYear(ws, b[1..]);
    }
    FirstToken(ws, a[0], Render(a[1..]), b[0], Render(b[1..]));
  }

  lemma TailOfTail(ws: Words, a: seq<Token>)
    requires IsTail(ws, a) && a != []
    ensures IsTail(ws, a[1..])
  {
    FromLater(ws, a[1..], Rank(a[0]) + 1, 0);
  }

  /** The tail of a name can be read in one way only. */
  lemma {:induction false} RenderInjective(ws: Words, a: seq<Token>, b: seq<Token>)
    requires SafeWords(ws) && IsTail(ws, a) && IsTail(ws, b) && Render(a) == Render(b)
    ensures a == b
  {
    RenderIsRest(a);
    RenderIsRest(b);
    if a != [] {
      FirstTokens(ws, a, b);
      TailOfTail(ws, a);
      TailOfTail(ws, b);
      RenderInjective(ws, a[1..], b[1..]);
      assert a == [a[0]] + a[1..] && b == [b[0]] + b[1..];
    }
  }

  // ------------------------------------------------------------ where a shorter series could end

  function SuffixOf(s: string, n: nat): string {
    if n <= |s| then s[|s| - n..] else s
  }

  /** `s` ends in a space and the text of a well-shaped token. */
  ghost predicate EndsInTokenText(ws: Words, s: string) {
    exists t: Token :: Shape(ws, t) && |Text(t)| < |s| && SuffixOf(s, |Text(t)| + 1) == " " + Text(t)
  }

  /** If some of the series, `cut`, and the rendered tokens after it can be read as tokens, then the series ends in
      a token text: the cut falls on a token boundary. */
  lemma {:induction false} CutEndsInToken(ws: Words, series: string, cut: string, mine: seq<Token>, theirs: seq<Token>)
    requires SafeWords(ws)
    requires cut != "" && |cut| < |series| && cut == SuffixOf(series, |cut|)
    requires series[|series| - 1] != ' ' && series[|series| - 1] != '.'
    requires From(ws, mine, 0) && From(ws, theirs, 0)
    requires cut + Render(mine) == Render(theirs)
    ensures EndsInTokenText(ws, series)
    decreases |theirs|
  {
    hide SafeWords, Shape, IsRest, EndsInTokenText, SuffixOf;
    RenderIsRest(mine);
    RenderIsRest(theirs);
    CutIsNotTheEnd(cut, Render(mine), Render(theirs));
    var t, rest := theirs[0], theirs[1..];
    var head := " " + Text(t);
    RenderIsRest(rest);
    SuffixEnds(series, |cut|);
    if |cut| == |head| {
      SameCut(cut, Render(mine), head, Render(rest));
      TokenAtEnd(ws, series, t);
    } else if |cut| > |head| {
      var cut' := cut[|head|..];
      LongerCut(series, cut, Render(mine), head, Render(rest));
      FromLater(ws, rest, Rank(t) + 1, 0);
      CutEndsInToken(ws, series, cut', mine, rest);
    } else {
      CutInsideToken(ws, cut, mine, t, Render(rest));
    }
  }

  lemma SuffixEnds(s: string, n: nat)
    requires 0 < n <= |s|
    ensures |SuffixOf(s, n)| == n && SuffixOf(s, n)[n - 1] == s[|s| - 1]
  {
  }

  lemma SameCut(cut: string, after: string, head: string, rest: string)
    requires cut + after == head + rest && |cut| == |head|
    ensures cut == head
  {
    assert cut == (cut + after)[..|cut|] && head == (head + rest)[..|head|];
  }

  lemma LongerCut(series: string, cut: string, after: string, head: string, rest: string)
    requires cut + after == head + rest && |head| < |cut| < |series| && cut == SuffixOf(series, |cut|)
    ensures cut[|head|..] + after == rest
    ensures cut[|head|..] == SuffixOf(series, |cut| - |head|)
  {
    assert cut[|head|..] + after == (cut + after)[|head|..];
    assert rest == (head + rest)[|head|..];
  }

  lemma CutIsNotTheEnd(cut: string, after: string, whole: string)
    requires cut != "" && IsRest(after) && cut + after == whole
    ensures |whole| > |EXTENSION|
  {
  }

  lemma TokenAtEnd(ws: Words, series: string, t: Token)
    requires Shape(ws, t) && |Text(t)| < |series| && SuffixOf(series, |Text(t)| + 1) == " " + Text(t)
    ensures EndsInTokenText(ws, series)
  {
  }

  /** Of two texts that go on to the same string, one starts with the other. */
  lemma OneStartsWithTheOther(a: string, b: string, restA: string, restB: string)
    requires a + restA == b + restB
    ensures a <= b || b <= a
  {
    if |a| <= |b| {
      assert a == (a + restA)[..|a|] == (b + restB)[..|a|] == b[..|a|];
    } else {
      assert b == (b + restB)[..|b|] == (a + restA)[..|b|] == a[..|b|];
    }
  }

  /** The cut cannot fall inside a token: before an inner space stands `ch.`, and after it nothing a token starts
      with. */
  lemma CutInsideToken(ws: Words, cut: string, mine: seq<Token>, t: Token, rest: string)
    requires SafeWords(ws)
    requires cut != "" && |cut| < |Text(t)| + 1
    requires cut[|cut| - 1] != ' ' && cut[|cut| - 1] != '.'
    requires (mine == [] || Shape(ws, mine[0])) && Shape(ws, t) && IsRest(rest)
    ensures cut + Render(mine) != " " + Text(t) + rest
  {
    if mine == [] {
      CutBeforeEnd(cut, Text(t), rest);
    } else {
      CutBeforeToken(ws, cut, mine[0], Render(mine[1..]), t, rest);
      CutThenToken(cut, Text(mine[0]), Render(mine[1..]));
    }
  }

  lemma CutBeforeEnd(cut: string, text: string, rest: string)
    requires |cut| < |text| + 1 && IsRest(rest)
    ensures cut + EXTENSION != " " + text + rest
  {
  }

  lemma CutThenToken(cut: string, text: string, after: string)
    ensures cut + (" " + text + after) == cut + " " + (text + after)
  {
  }

  lemma CutBeforeToken(ws: Words, cut: string, m: Token, after: string, t: Token, rest: string)
    requires SafeWords(ws)
    requires cut != "" && |cut| < |Text(t)| + 1
    requires cut[|cut| - 1] != ' ' && cut[|cut| - 1] != '.'
    requires Shape(ws, m) && Shape(ws, t)
    ensures cut + " " + (Text(m) + after) != " " + Text(t) + rest
  {
    var k := |cut|;
    var left, right := cut + " " + (Text(m) + after), " " + Text(t) + rest;
    if left == right {
      CutAtSpace(cut, Text(m) + after, Text(t), rest);
      SpaceInside(ws, t, k - 1);
      LeadingChar(ws, t);
      EditionCut(ws, t.word, k - 2, m, after, rest, left, right, k);
    }
  }

  /** Where the cut falls, the token has a space, after a character that is neither space nor dot. */
  lemma CutAtSpace(cut: string, more: string, text: string, rest: string)
    requires cut != "" && |cut| < |text| + 1
    requires cut[|cut| - 1] != ' ' && cut[|cut| - 1] != '.'
    requires cut + " " + more == " " + text + rest
    ensures |cut| >= 2 && text[|cut| - 1] == ' ' && text[|cut| - 2] != '.'
    ensures (cut + " " + more)[|cut| + 1..] == more
  {
    var k := |cut|;
    var left, right := cut + " " + more, " " + text + rest;
    assert left[k] == ' ' && left[k - 1] == cut[k - 1];
    assert right[k] == text[k - 1];
    assert k > 1 ==> right[k - 1] == text[k - 2];
    assert right[0] == ' ';
  }

  /** Texts neither of which starts with the other do not go on to the same string. */
  lemma NoCommonContinuation(a: string, b: string, restA: string, restB: string)
    requires !(a <= b) && !(b <= a)
    ensures a + restA != b + restB
  {
    if a + restA == b + restB {
      OneStartsWithTheOther(a, b, restA, restB);
    }
  }

  lemma SecondWordIsNoToken(ws: Words, second: string, m: Token, after: string, rest: string)
    requires SafeWords(ws) && Shape(ws, m) && second != "" && second[0] !in MARKS
    requires forall v | v in ws.specials :: !(v <= second) && !(second <= v)
    ensures Text(m) + after != second + rest
  {
    LeadingChar(ws, m);
    if m.Special? {
      NoCommonContinuation(m.word, second, after, rest);
    } else {
      assert (Text(m) + after)[0] == Text(m)[0] && (second + rest)[0] == second[0];
    }
  }

  /** After the space of an edition no token starts. */
  lemma EditionCut(ws: Words, word: string, space: nat, m: Token, after: string, rest: string,
                   left: string, right: string, k: nat)
    requires SafeWords(ws) && word in ws.editions && space < |word| && word[space] == ' ' && k == space + 2
    requires Shape(ws, m)
    requires right == " " + Text(Edition(word)) + rest
    requires |left| > k && left[k + 1..] == Text(m) + after
    ensures left != right
  {
    var second := word[space + 1..] + ")";
    assert SafeSecondWord(ws, word, space);
    SecondWordIsNoToken(ws, second, m, after, rest);
    AfterSpace(word, space, rest);
  }

  lemma AfterSpace(word: string, space: nat, rest: string)
    requires space < |word|
    ensures (" " + ("(" + word + ")") + rest)[space + 3..] == word[space + 1..] + ")" + rest
  {
  }
}
