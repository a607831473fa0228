/**
 What the brackets rule and the spacing of a cleaning pass do to a text, said of the text itself (scripts/cbz_core.py): a
 block from an opener to its first closer goes, an opener without closer and a closer without opener go alone, runs of
 spaces become one, and everything else stays.
 */
module BracketRules {
  import opened CanonicalNumbers
  import opened Cleaning
  import opened SeriesText

  predicate Has(s: string, c: char) {
    c in s
  }

  // ------------------------------------------------------------ blocks

  /** Text before the first opener stays, and the rules look at what follows it. */
  lemma {:induction false} BeforeOpeners(x: string, t: string)
    requires !Has(x, '[') && !Has(x, '(')
    ensures RemoveBrackets(x + t) == x + RemoveBrackets(t) && Brackets(x + t) == Brackets(t)
  {
    if x == "" {
      assert x + t == t && "" + RemoveBrackets(t) == RemoveBrackets(t);
    } else {
      assert (x + t)[1..] == x[1..] + t && (x + t)[0] == x[0];
      BeforeOpeners(x[1..], t);
      assert [x[0]] + (x[1..] + RemoveBrackets(t)) == x + RemoveBrackets(t);
    }
  }

  predicate Pair(open: char, close: char) {
    (open == '[' && close == ']') || (open == '(' && close == ')')
  }

  /** A block from an opener to its first closer is one bracket, and goes. */
  lemma BlockGoes(open: char, close: char, w: string, y: string)
    requires Pair(open, close) && !Has(w, close)
    ensures RemoveBrackets([open] + w + [close] + y) == RemoveBrackets(y)
    ensures Brackets([open] + w + [close] + y) == [[open] + w + [close]] + Brackets(y)
  {
    var b := [open] + w + [close];
    var s := b + y;
    assert s[1..] == w + ([close] + y);
    IndexOfIs(s[1..], close, |w|) by {
      assert s[1..][..|w|] == w;
    }
    assert BracketLength(s) == |b| && s[..|b|] == b && s[|b|..] == y;
  }

  /** An opener without closer is no bracket. */
  lemma OpenerAlone(open: char, close: char, y: string)
    requires Pair(open, close) && !Has(y, close)
    ensures RemoveBrackets([open] + y) == [open] + RemoveBrackets(y)
    ensures Brackets([open] + y) == Brackets(y)
  {
    var s := [open] + y;
    assert s[1..] == y && y[..|y|] == y;
    IndexOfIs(y, close, |y|);
  }

  lemma BlockInText(x: string, open: char, close: char, w: string, y: string)
    requires !Has(x, '[') && !Has(x, '(') && Pair(open, close) && !Has(w, close)
    ensures RemoveBrackets(x + [open] + w + [close] + y) == x + RemoveBrackets(y)
    ensures Brackets(x + [open] + w + [close] + y) == [[open] + w + [close]] + Brackets(y)
  {
    var t := [open] + w + [close] + y;
    assert x + [open] + w + [close] + y == x + t;
    BeforeOpeners(x, t);
    BlockGoes(open, close, w, y);
  }

  /** No opener has its closer behind it. */
  predicate NothingBracketed(s: string) {
    forall i | 0 <= i < |s| :: (s[i] == '[' ==> !Has(s[i..], ']')) && (s[i] == '(' ==> !Has(s[i..], ')'))
  }

  lemma {:induction false} NothingBracketedStays(s: string)
    requires NothingBracketed(s)
    ensures RemoveBrackets(s) == s && Brackets(s) == []
  {
    if s != "" {
      var y := s[1..];
      forall i | 0 <= i < |y| ensures (y[i] == '[' ==> !Has(y[i..], ']')) && (y[i] == '(' ==> !Has(y[i..], ')')) {
        assert y[i..] == s[i + 1..];
      }
      NothingBracketedStays(y);
      assert s == [s[0]] + y && s[0..] == s;
      if s[0] == '[' {
        OpenerAlone('[', ']', y);
      } else if s[0] == '(' {
        OpenerAlone('(', ')', y);
      }
    }
  }

  /** What is left of openers and closers goes, and nothing else. */
  lemma {:induction false} StraysGo(x: string, y: string)
    ensures RemoveStrays(x + y) == RemoveStrays(x) + RemoveStrays(y)
    ensures forall c: char :: RemoveStrays([c]) == if c in {'[', ']', '(', ')'} then "" else [c]
  {
    assert forall c: char :: [c][1..] == [];
    if x == "" {
      assert x + y == y;
    } else {
      assert (x + y)[1..] == x[1..] + y && (x + y)[0] == x[0];
      StraysGo(x[1..], y);
    }
  }

  // ------------------------------------------------------------ spacing

  /** Two spaces are one. */
  lemma DoubleSpace(a: Alphabet, x: string, y: string)
    ensures CollapseSpaces(a, x + "  " + y) == CollapseSpaces(a, x + " " + y)
  {
    var after := x != "" && x[|x| - 1] == ' ';
    assert x + "  " + y == x + ("  " + y) && x + " " + y == x + (" " + y);
    SqueezeAppend(x, "  " + y, false);
    SqueezeAppend(x, " " + y, false);
    assert ("  " + y)[1..] == " " + y && (" " + y)[1..] == y;
    SqueezeFirst("  " + y, after);
    SqueezeFirst(" " + y, true);
    SqueezeFirst(" " + y, after);
    assert "" + Squeeze(y, true) == Squeeze(y, true);
  }

  /** Spaces at the ends go. */
  lemma OuterSpace(a: Alphabet, x: string)
    requires a.unicode.isSpace(' ')
    ensures CollapseSpaces(a, " " + x) == CollapseSpaces(a, x) == CollapseSpaces(a, x + " ")
  {
    LeadingSpace(a, x);
    TrailingSpace(a, x);
  }

  lemma SpaceInFront(u: Unicode, q: string)
    requires u.isSpace(' ')
    ensures StripLeft(u, " " + q) == StripLeft(u, q)
  {
    assert (" " + q)[1..] == q;
  }

  lemma LeadingSpace(a: Alphabet, x: string)
    requires a.unicode.isSpace(' ')
    ensures CollapseSpaces(a, " " + x) == CollapseSpaces(a, x)
  {
    hide Squeeze;
    assert (" " + x)[1..] == x;
    SqueezeFirst(" " + x, false);
    SpaceInFront(a.unicode, Squeeze(x, true));
    if x != "" {
      SqueezeFirst(x, true);
      SqueezeFirst(x, false);
      SpaceInFront(a.unicode, Squeeze(x[1..], true));
      assert "" + Squeeze(x[1..], true) == Squeeze(x[1..], true);
    } else {
      NothingSqueezed(true);
      NothingSqueezed(false);
    }
  }

  lemma TrailingSpace(a: Alphabet, x: string)
    requires a.unicode.isSpace(' ')
    ensures CollapseSpaces(a, x + " ") == CollapseSpaces(a, x)
  {
    hide Squeeze;
    var after := x != "" && x[|x| - 1] == ' ';
    SqueezeAppend(x, " ", false);
    SqueezeFirst(" ", after);
    assert " "[1..] == "" && "" + "" == "" && " " + "" == " ";
    NothingSqueezed(true);
    var q := Squeeze(x, false);
    assert q + "" == q;
    LastSpace(a.unicode, q);
  }

  lemma {:induction false} LastSpace(u: Unicode, q: string)
    requires u.isSpace(' ')
    ensures StripRight(u, StripLeft(u, q + " ")) == StripRight(u, StripLeft(u, q))
  {
    if q == "" {
      assert q + " " == " " && " "[1..] == "";
    } else if u.isSpace(q[0]) {
      assert (q + " ")[1..] == q[1..] + " ";
      LastSpace(u, q[1..]);
    } else {
      assert (q + " ")[..|q|] == q;
    }
  }

  /** A text that is spaced as names are stays. */
  lemma SpacedStays(a: Alphabet, s: string)
    requires s != "" ==> !a.unicode.isSpace(s[0]) && !a.unicode.isSpace(s[|s| - 1])
    requires forall i | 0 < i < |s| :: s[i - 1] != ' ' || s[i] != ' '
    ensures CollapseSpaces(a, s) == s
  {
    CollapseOfTidied(a, s);
  }

  // ------------------------------------------------------------ the pass

  /** Characters that no rule that is on takes out. */
  predicate Plain(r: Rules, s: string) {
    forall i | 0 <= i < |s| ::
      && s[i] != '_'
      && (r.windowsSafe ==> s[i] !in {'<', '>', ':', '"', '/', '\\', '|', '?', '*'})
      && s[i] !in {'[', ']', '(', ')'}
  }

  /** A text without brackets, underscores and forbidden characters in which nothing is deleted survives the pass up to
      spacing. */
  lemma PlainSurvives(a: Alphabet, r: Rules, s: string)
    requires Plain(r, s) && r.delete(s) == s
    ensures Pass(a, r, s) == CollapseSpaces(a, s)
  {
    hide CollapseSpaces;
    NothingReattached(a, r, s);
    UnbracketShrinks(r, s);
    assert Blank(s, c => c == '_') == s;
    CollapseTidies(a, s);
    if r.windowsSafe {
      assert Blank(s, c => WindowsForbidden(c)) == s;
      CollapseOfTidied(a, CollapseSpaces(a, s));
    }
  }

  lemma NothingReattached(a: Alphabet, r: Rules, s: string)
    requires forall i | 0 <= i < |s| :: s[i] !in BRACKETS
    ensures Pass(a, r, s) == Core(a, r, s)
  {
    hide Core, Kinds, Markers;
    NoBrackets(s);
    assert AllMarkers(a, []) == [];
  }

  /** Underscores and, with the Windows rule, forbidden characters count as spaces. */
  lemma OthersBecomeSpaces(a: Alphabet, r: Rules, s: string)
    requires (forall i | 0 <= i < |s| :: s[i] !in {'[', ']', '(', ')'}) && r.delete(s) == s
    ensures Pass(a, r, s) == CollapseSpaces(a, seq(|s|, i requires 0 <= i < |s| =>
      if s[i] == '_' || (r.windowsSafe && s[i] in {'<', '>', ':', '"', '/', '\\', '|', '?', '*'}) then ' ' else s[i]))
  {
    var spaced := seq(|s|, i requires 0 <= i < |s| =>
      if s[i] == '_' || (r.windowsSafe && s[i] in {'<', '>', ':', '"', '/', '\\', '|', '?', '*'}) then ' ' else s[i]);
    hide CollapseSpaces;
    NothingReattached(a, r, s);
    UnbracketShrinks(r, s);
    var b := Blank(s, c => c == '_');
    var w := if r.windowsSafe then Blank(b, c => WindowsForbidden(c)) else b;
    assert w == spaced;
    CollapseTidies(a, w);
    CollapseOfTidied(a, CollapseSpaces(a, w));
  }

  /** With the brackets rule a block without a marker goes from the pass as if it had not been there. */
  lemma BlockIsCleanedAway(a: Alphabet, r: Rules, x: string, open: char, close: char, w: string, y: string)
    requires r.brackets && !Has(x, '[') && !Has(x, '(') && Pair(open, close) && !Has(w, close)
    requires Markers(a, [open] + w + [close], false) == []
    requires var with, without := x + [open] + w + [close] + y, x + y;
      r.delete(with) == with && r.delete(without) == without
    ensures Pass(a, r, x + [open] + w + [close] + y) == Pass(a, r, x + y)
  {
    BlockInText(x, open, close, w, y);
    BeforeOpeners(x, y);
    var parts := [[open] + w + [close]] + Brackets(y);
    assert parts[1..] == Brackets(y);
    assert AllMarkers(a, parts) == [] + AllMarkers(a, Brackets(y)) == AllMarkers(a, Brackets(y));
  }

  lemma TagPasses(a: Alphabet, r: Rules, s: string, open: char, close: char, tag: string)
    requires SaneAlphabet(a) && r.brackets && Pair(open, close) && !Has(tag, close)
    requires Plain(r, s) && r.delete(s + " ") == s + " "
    requires s != "" ==> !a.unicode.isSpace(s[0]) && !a.unicode.isSpace(s[|s| - 1])
    requires forall i | 0 < i < |s| :: s[i - 1] != ' ' || s[i] != ' '
    requires Markers(a, [open] + tag + [close], false) == []
    requires var name := s + " " + [open] + tag + [close]; r.delete(name) == name
    ensures Pass(a, r, s + " " + [open] + tag + [close]) == s
  {
    hide Pass, CollapseSpaces, Markers;
    var name := s + " " + [open] + tag + [close];
    assert name + "" == name && s + " " + "" == s + " ";
    BlockIsCleanedAway(a, r, s + " ", open, close, tag, "");
    PlainSurvives(a, r, s + " ");
    OuterSpace(a, s);
    SpacedStays(a, s);
  }

  /** A pass that gives what the next leaves alone ends the cleaning. */
  lemma TwoPasses(a: Alphabet, r: Rules, name: string, t: string)
    requires Pass(a, r, name) == t && Pass(a, r, t) == t
    ensures Sanitized(a, r, name) == t
  {
    hide Pass;
    var step := Cleaner(a, r);
    assert Repeat(step, name, 0) == name && Repeat(step, name, 1) == step(Repeat(step, name, 0)) == t;
    RepeatStays(step, name, 1, Limit(name) - 1);
  }

  /** `Berserk [Judas]` cleans to `Berserk`: a tag behind a name goes with the space before it. */
  lemma TagGoes(a: Alphabet, r: Rules, s: string, open: char, close: char, tag: string)
    requires SaneAlphabet(a) && r.brackets && Pair(open, close) && !Has(tag, close)
    requires Plain(r, s) && r.delete(s) == s && r.delete(s + " ") == s + " "
    requires s != "" ==> !a.unicode.isSpace(s[0]) && !a.unicode.isSpace(s[|s| - 1])
    requires forall i | 0 < i < |s| :: s[i - 1] != ' ' || s[i] != ' '
    requires Markers(a, [open] + tag + [close], false) == []
    requires var name := s + " " + [open] + tag + [close]; r.delete(name) == name
    ensures Sanitized(a, r, s + " " + [open] + tag + [close]) == s
  {
    hide Pass, CollapseSpaces, Markers;
    var name := s + " " + [open] + tag + [close];
    TagPasses(a, r, s, open, close, tag);
    PlainSurvives(a, r, s);
    SpacedStays(a, s);
    TwoPasses(a, r, name, s);
  }

  // ------------------------------------------------------------ markers

  /** `uncensored` or `decensored`, up to case. */
  predicate DecensorWord(a: Alphabet, w: string) {
    && |w| == 10
    && (|| (forall i | 0 <= i < 10 :: a.unicode.fold(w[i]) == a.unicode.fold("uncensored"[i]))
        || (forall i | 0 <= i < 10 :: a.unicode.fold(w[i]) == a.unicode.fold("decensored"[i])))
  }

  lemma DecensorWordsAreMarkers(a: Alphabet, w: string)
    ensures DecensorWord(a, w) <==> IsMarker(a, w)
  {
    if |w| == 10 {
      SameText(a, w, "uncensored");
      SameText(a, w, "decensored");
    }
  }

  lemma SameText(a: Alphabet, w: string, v: string)
    requires |w| == |v|
    ensures Folded(a, w) == Folded(a, v) <==> forall i | 0 <= i < |v| :: a.unicode.fold(w[i]) == a.unicode.fold(v[i])
  {
    if forall i | 0 <= i < |v| :: a.unicode.fold(w[i]) == a.unicode.fold(v[i]) {
      assert forall i | 0 <= i < |v| :: Folded(a, w)[i] == Folded(a, v)[i];
    } else {
      var i :| 0 <= i < |v| && a.unicode.fold(w[i]) != a.unicode.fold(v[i]);
      assert Folded(a, w)[i] != Folded(a, v)[i];
    }
  }

  /** The block around a marker has that marker. */
  lemma MarkerInBlock(a: Alphabet, open: char, close: char, w: string)
    requires SaneAlphabet(a) && Pair(open, close) && IsMarker(a, w)
    ensures Markers(a, [open] + w + [close], false) == [w]
  {
    assert |w| == MARKER_LENGTH;
    hide MarkerLetter, IsMarker;
    var block, rest := [open] + w + [close], w + [close];
    MarkerChars(a, w);
    MarkerStartIsWord(a, block);
    assert block[0] == open && !a.isWord(open);
    assert block[1..] == rest && rest[..MARKER_LENGTH] == w && rest[MARKER_LENGTH..] == [close] && [close][1..] == [];
    assert Markers(a, [close], true) == [];
    assert Markers(a, rest, false) == [w] + [];
  }

  lemma SameCore(a: Alphabet, r: Rules, x: string, y: string)
    requires Unbracket(r, r.delete(x)) == Unbracket(r, r.delete(y))
    ensures Core(a, r, x) == Core(a, r, y)
  {
  }

  lemma TagUnbracketed(x: string, open: char, close: char, tag: string)
    requires !Has(x, '[') && !Has(x, '(') && Pair(open, close) && !Has(tag, close)
    ensures RemoveBrackets(x + [open] + tag + [close]) == RemoveBrackets(x)
    ensures Brackets(x + [open] + tag + [close]) == [[open] + tag + [close]]
  {
    hide Pair, Has, RemoveBrackets, Brackets;
    assert x + [open] + tag + [close] + "" == x + [open] + tag + [close] && x + "" == x;
    BlockInText(x, open, close, tag, "");
    BeforeOpeners(x, "");
    NothingIn();
    assert [[open] + tag + [close]] + [] == [[open] + tag + [close]];
  }

  lemma NothingIn()
    ensures RemoveBrackets("") == "" && Brackets("") == []
  {
  }

  /** The name in front of a block is what the rules leave. */
  lemma CoreWithoutTag(a: Alphabet, r: Rules, s: string, open: char, close: char, tag: string)
    requires SaneAlphabet(a) && r.brackets && Pair(open, close) && !Has(tag, close)
    requires Plain(r, s) && r.delete(s + " ") == s + " "
    requires s != "" ==> !a.unicode.isSpace(s[0]) && !a.unicode.isSpace(s[|s| - 1])
    requires forall i | 0 < i < |s| :: s[i - 1] != ' ' || s[i] != ' '
    requires var name := s + " " + [open] + tag + [close]; r.delete(name) == name
    ensures Core(a, r, s + " " + [open] + tag + [close]) == s
  {
    hide Core, CollapseSpaces, WindowsSafe, Markers, Pair, RemoveBrackets, RemoveStrays, Brackets, Pass;
    var name := s + " " + [open] + tag + [close];
    TagUnbracketed(s + " ", open, close, tag);
    SameCore(a, r, name, s + " ");
    NothingReattached(a, r, s + " ");
    PlainSurvives(a, r, s + " ");
    OuterSpace(a, s);
    SpacedStays(a, s);
  }

  /** A marker that is not in the rest goes back behind it. */
  lemma MarkerGoesBack(a: Alphabet, name: string, s: string, block: string, w: string)
    requires Brackets(name) == [block] && Markers(a, block, false) == [w] && Folded(a, w) !in Kinds(a, Markers(a, s, false))
    ensures Preserve(a, name, s) == CollapseSpaces(a, s + " " + w)
  {
    hide CollapseSpaces, Markers, Brackets, Kinds;
    assert [block][1..] == [] && AllMarkers(a, []) == [] && [w] + [] == [w];
    assert AllMarkers(a, [block]) == [w] + AllMarkers(a, [block][1..]);
    var seen := Kinds(a, Markers(a, s, false));
    assert [w][1..] == [];
    assert Missing(a, [w], seen) == [w] + Missing(a, [w][1..], seen + {Folded(a, w)});
    assert JoinWords(s, [w]) == JoinWords(s + " " + w, [w][1..]);
  }

  lemma WordBehind(a: Alphabet, r: Rules, s: string, w: string)
    requires Plain(r, s) && s != "" && !a.unicode.isSpace(s[0]) && !a.unicode.isSpace(s[|s| - 1]) && s[|s| - 1] != ' '
    requires forall i | 0 < i < |s| :: s[i - 1] != ' ' || s[i] != ' '
    requires Plain(r, w) && w != "" && forall i | 0 <= i < |w| :: !a.unicode.isSpace(w[i]) && w[i] != ' '
    ensures Plain(r, s + " " + w) && CollapseSpaces(a, s + " " + w) == s + " " + w
  {
    hide CollapseSpaces;
    var t := s + " " + w;
    forall i | 0 < i < |t| ensures t[i - 1] != ' ' || t[i] != ' ' {
      if i < |s| {
        assert t[i - 1] == s[i - 1] && t[i] == s[i];
      } else if i == |s| {
        assert t[i - 1] == s[i - 1];
      } else {
        assert t[i] == w[i - |s| - 1];
      }
    }
    SpacedStays(a, t);
  }

  /** `Berserk [Uncensored]` cleans to `Berserk Uncensored`: a marker outlives its block. */
  lemma MarkerTagStays(a: Alphabet, r: Rules, s: string, open: char, close: char, w: string)
    requires SaneAlphabet(a) && r.brackets && Pair(open, close) && DecensorWord(a, w)
    requires Plain(r, s) && s != "" && !a.unicode.isSpace(s[0]) && !a.unicode.isSpace(s[|s| - 1])
    requires forall i | 0 < i < |s| :: s[i - 1] != ' ' || s[i] != ' '
    requires r.delete(s + " ") == s + " " && r.delete(s + " " + w) == s + " " + w
    requires var name := s + " " + [open] + w + [close]; r.delete(name) == name
    requires Folded(a, w) !in Kinds(a, Markers(a, s, false))
    ensures Sanitized(a, r, s + " " + [open] + w + [close]) == s + " " + w
  {
    var name, t, block := s + " " + [open] + w + [close], s + " " + w, [open] + w + [close];
    assert |w| > 0 && Plain(r, s + " ") && !Has(s + " ", '[') && !Has(s + " ", '(');
    DecensorWordsAreMarkers(a, w);
    MarkerIsPlain(a, r, w);
    WordBehind(a, r, s, w);
    assert !Has(w, close);
    hide Core, CollapseSpaces, Markers, MarkerLetter, IsMarker, DecensorWord, Preserve, Has, Plain, Pair, SaneAlphabet, Kinds,
      Brackets, RemoveBrackets, Sanitized, Folded, MarkerStarts;
    CoreWithoutTag(a, r, s, open, close, w);
    TagUnbracketed(s + " ", open, close, w);
    MarkerInBlock(a, open, close, w);
    MarkerGoesBack(a, name, s, block, w);
    PlainSurvives(a, r, t);
    assert Pass(a, r, name) == t;
    TwoPasses(a, r, name, t);
  }

  lemma MarkerIsPlain(a: Alphabet, r: Rules, w: string)
    requires SaneAlphabet(a) && IsMarker(a, w)
    ensures Plain(r, w) && forall i | 0 <= i < |w| :: !a.unicode.isSpace(w[i]) && w[i] != ' '
  {
    hide MarkerLetter, IsMarker;
    MarkerChars(a, w);
  }
}
