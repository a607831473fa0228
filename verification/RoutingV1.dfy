/**
 Version 1 routing files: their translation to version 2 (`_convert_v1` in scripts/cbz_routing.py) routes every context
 where the version 1 rules do when their fields are read as version 2 reads them. Module WatcherRoute compares it with the
 watcher's reading.
 */
module RoutingV1 {
  import opened Outcomes
  import opened CanonicalNumbers
  import opened RoutingPredicates

  /** A rule object of a version 1 file; entries without pattern or destination are comments. */
  datatype OldRule = OldRule(pattern: Option<string>, destination: Option<string>, field: Option<string>)

  /** Consecutive rules over one field with one destination. */
  datatype Run = Run(field: string, destination: string, patterns: seq<string>)

  predicate IsRule(r: OldRule) {
    r.pattern.Some? && r.destination.Some?
  }

  function FieldOf(r: OldRule): string {
    if r.field.Some? then r.field.value else "source"
  }

  // ------------------------------------------------------------ version 1 rules, with fields read as in version 2

  /** The field is there and matches the pattern; absent is false. */
  predicate Matches(t: Text, context: Context, field: string, pattern: string) {
    var value := Lookup(t, context, field);
    value.Some? && t.glob(t.fold(value.value), t.fold(pattern))
  }

  /** First match wins, then the default. */
  function Route(t: Text, context: Context, rules: seq<OldRule>, default: string): string {
    if rules == [] then default
    else if IsRule(rules[0]) && Matches(t, context, FieldOf(rules[0]), rules[0].pattern.value)
      then rules[0].destination.value
    else Route(t, context, rules[1..], default)
  }

  // ------------------------------------------------------------ runs

  function AddToRuns(runs: seq<Run>, r: OldRule): seq<Run> {
    if !IsRule(r) then runs
    else if runs != [] && runs[|runs| - 1].field == FieldOf(r) && runs[|runs| - 1].destination == r.destination.value
      then
        var last := runs[|runs| - 1];
        runs[..|runs| - 1] + [last.(patterns := last.patterns + [r.pattern.value])]
    else runs + [Run(FieldOf(r), r.destination.value, [r.pattern.value])]
  }

  function Runs(rules: seq<OldRule>): seq<Run> {
    if rules == [] then [] else AddToRuns(Runs(rules[..|rules| - 1]), rules[|rules| - 1])
  }

  predicate RunMatches(t: Text, context: Context, run: Run) {
    exists p | p in run.patterns :: Matches(t, context, run.field, p)
  }

  function RouteRuns(t: Text, context: Context, runs: seq<Run>): Option<string> {
    if runs == [] then None
    else if RunMatches(t, context, runs[0]) then Some(runs[0].destination)
    else RouteRuns(t, context, runs[1..])
  }

  // ------------------------------------------------------------ names

  function Suffix(runs: seq<Run>, i: nat): string {
    if |runs| == 1 then "" else "_" + NatText(i + 1)
  }

  function ListStem(run: Run): string {
    "v1_" + run.destination + "_" + run.field + "_patterns"
  }

  function SignalStem(run: Run): string {
    "v1_" + run.destination + "_by_" + run.field
  }

  function ListNameOf(runs: seq<Run>, i: nat): string
    requires i < |runs|
  {
    ListStem(runs[i]) + Suffix(runs, i)
  }

  function SignalNameOf(runs: seq<Run>, i: nat): string
    requires i < |runs|
  {
    SignalStem(runs[i]) + Suffix(runs, i)
  }

  /** The names tell the destination and the field, and with more than one run the number of the run, counted from 1. */
  lemma NamesTell(runs: seq<Run>, i: nat)
    requires i < |runs|
    ensures var number := if |runs| == 1 then "" else "_" + NatText(i + 1);
      && ListNameOf(runs, i) == "v1_" + runs[i].destination + "_" + runs[i].field + "_patterns" + number
      && SignalNameOf(runs, i) == "v1_" + runs[i].destination + "_by_" + runs[i].field + number
  {
  }

  function SignalOf(runs: seq<Run>, i: nat): Node
    requires i < |runs|
  {
    Object(Some(Nodes([Object(None, None, None, Some(runs[i].field), [GlobInList(ListNameOf(runs, i))])])),
           None, None, None, [])
  }

  lemma {:induction false} DigitsAfterUnderscore(x: string, m: string)
    requires forall i | 0 <= i < |m| :: IsDigit(m[i])
    ensures TrailingDigits(IsDigit, x + ("_" + m)) == |m|
    decreases |m|
  {
    var s := x + ("_" + m);
    if m != "" {
      var init := m[..|m| - 1];
      assert s[..|s| - 1] == x + ("_" + init);
      DigitsAfterUnderscore(x, init);
    }
  }

  /** A number behind the last underscore can be read back. */
  lemma NumberedApart(x: string, i: nat, y: string, j: nat)
    requires x + ("_" + NatText(i)) == y + ("_" + NatText(j))
    ensures i == j
  {
    hide TrailingDigits, NatText;
    var m, n := NatText(i), NatText(j);
    DigitsAfterUnderscore(x, m);
    DigitsAfterUnderscore(y, n);
    assert m == (x + ("_" + m))[|x| + 1..] && n == (y + ("_" + n))[|y| + 1..];
    NatTextShape(i);
    NatTextShape(j);
  }

  lemma SuffixesApart(runs: seq<Run>, x: string, i: nat, y: string, j: nat)
    requires i < |runs| && j < |runs| && x + Suffix(runs, i) == y + Suffix(runs, j)
    ensures i == j
  {
    if |runs| > 1 {
      NumberedApart(x, i + 1, y, j + 1);
    }
  }

  /** No two runs share a list name, and no two share a signal name. */
  lemma NamesAreDistinct(runs: seq<Run>, i: nat, j: nat)
    requires i < |runs| && j < |runs|
    ensures ListNameOf(runs, i) == ListNameOf(runs, j) ==> i == j
    ensures SignalNameOf(runs, i) == SignalNameOf(runs, j) ==> i == j
  {
    var x, y := ListStem(runs[i]), ListStem(runs[j]);
    if x + Suffix(runs, i) == y + Suffix(runs, j) {
      SuffixesApart(runs, x, i, y, j);
    }
    var v, w := SignalStem(runs[i]), SignalStem(runs[j]);
    if v + Suffix(runs, i) == w + Suffix(runs, j) {
      SuffixesApart(runs, v, i, w, j);
    }
  }

  // ------------------------------------------------------------ conversion

  /** Run `i` is in the lists and the signals under its names. */
  ghost predicate ListHeld(lists: map<string, seq<string>>, runs: seq<Run>, i: nat)
    requires i < |runs|
  {
    ListNameOf(runs, i) in lists && lists[ListNameOf(runs, i)] == runs[i].patterns
  }

  ghost predicate SignalHeld(signals: map<string, Node>, runs: seq<Run>, i: nat)
    requires i < |runs|
  {
    SignalNameOf(runs, i) in signals && signals[SignalNameOf(runs, i)] == SignalOf(runs, i)
  }

  /** The config holds every run under its names, and one rule for each run in order. */
  ghost predicate Holding(cfg: Config, runs: seq<Run>) {
    && (forall i: nat | i < |runs| :: ListHeld(cfg.lists, runs, i) && SignalHeld(cfg.signals, runs, i))
    && |cfg.rules| == |runs|
    && forall i: nat | i < |runs| :: cfg.rules[i] == Rule(Ref(SignalNameOf(runs, i)), runs[i].destination, Strong)
  }

  lemma AddNames(lists: map<string, seq<string>>, signals: map<string, Node>, runs: seq<Run>, k: nat)
    requires k < |runs| && forall i: nat | i < k :: ListHeld(lists, runs, i) && SignalHeld(signals, runs, i)
    ensures var moreLists := lists[ListNameOf(runs, k) := runs[k].patterns];
      var moreSignals := signals[SignalNameOf(runs, k) := SignalOf(runs, k)];
      forall i: nat | i < k + 1 :: ListHeld(moreLists, runs, i) && SignalHeld(moreSignals, runs, i)
  {
    forall i: nat | i < k
      ensures ListNameOf(runs, i) != ListNameOf(runs, k) && SignalNameOf(runs, i) != SignalNameOf(runs, k)
      ensures ListHeld(lists, runs, i) && SignalHeld(signals, runs, i)
    {
      NamesAreDistinct(runs, i, k);
    }
  }

  /** The first loop of `_convert_v1`. */
  method CollectRuns(rules: seq<OldRule>) returns (runs: seq<Run>)
    ensures runs == Runs(rules)
  {
    runs := [];
    for k := 0 to |rules|
      invariant runs == Runs(rules[..k])
    {
      assert rules[..k + 1][..k] == rules[..k];
      var r := rules[k];
      if r.pattern.Some? && r.destination.Some? {
        if runs != [] && runs[|runs| - 1].field == FieldOf(r) && runs[|runs| - 1].destination == r.destination.value {
          var last := runs[|runs| - 1];
          runs := runs[|runs| - 1 := last.(patterns := last.patterns + [r.pattern.value])];
        } else {
          runs := runs + [Run(FieldOf(r), r.destination.value, [r.pattern.value])];
        }
      }
    }
    assert rules[..|rules|] == rules;
  }

  /** `_convert_v1` */
  method Convert(rules: seq<OldRule>, default: string) returns (cfg: Config)
    ensures cfg.default == default && Holding(cfg, Runs(rules))
  {
    hide ListHeld, SignalHeld, SignalNameOf, ListNameOf, SignalOf, Runs;
    var runs := CollectRuns(rules);
    var lists: map<string, seq<string>> := map[];
    var signals: map<string, Node> := map[];
    var newRules: seq<Rule> := [];
    for k := 0 to |runs|
      invariant forall i: nat | i < k :: ListHeld(lists, runs, i) && SignalHeld(signals, runs, i)
      invariant |newRules| == k
      invariant forall i: nat | i < k :: newRules[i] == Rule(Ref(SignalNameOf(runs, i)), runs[i].destination, Strong)
    {
      AddNames(lists, signals, runs, k);
      lists := lists[ListNameOf(runs, k) := runs[k].patterns];
      signals := signals[SignalNameOf(runs, k) := SignalOf(runs, k)];
      newRules := newRules + [Rule(Ref(SignalNameOf(runs, k)), runs[k].destination, Strong)];
    }
    cfg := Config(lists, signals, newRules, default);
  }

  // ------------------------------------------------------------ folding rules into runs keeps the routing

  lemma {:induction false} RouteRunsAppend(t: Text, context: Context, a: seq<Run>, b: seq<Run>)
    ensures RouteRuns(t, context, a + b) ==
      if RouteRuns(t, context, a).Some? then RouteRuns(t, context, a) else RouteRuns(t, context, b)
  {
    if a == [] {
      assert a + b == b;
    } else {
      assert (a + b)[1..] == a[1..] + b;
      RouteRunsAppend(t, context, a[1..], b);
    }
  }

  function RouteOne(t: Text, context: Context, r: OldRule): Option<string> {
    if IsRule(r) && Matches(t, context, FieldOf(r), r.pattern.value) then r.destination else None
  }

  /** One more rule is one more chance to match, at the end. */
  lemma AddRouted(t: Text, context: Context, runs: seq<Run>, r: OldRule)
    ensures RouteRuns(t, context, AddToRuns(runs, r)) ==
      if RouteRuns(t, context, runs).Some? then RouteRuns(t, context, runs) else RouteOne(t, context, r)
  {
    if IsRule(r) {
      if runs != [] && runs[|runs| - 1].field == FieldOf(r) && runs[|runs| - 1].destination == r.destination.value {
        var init, last := runs[..|runs| - 1], runs[|runs| - 1];
        var longer := last.(patterns := last.patterns + [r.pattern.value]);
        assert runs == init + [last];
        RouteRunsAppend(t, context, init, [last]);
        RouteRunsAppend(t, context, init, [longer]);
        LongerRun(t, context, last, r.pattern.value);
        assert [last][1..] == [] && [longer][1..] == [];
      } else {
        var run := Run(FieldOf(r), r.destination.value, [r.pattern.value]);
        RouteRunsAppend(t, context, runs, [run]);
        assert [run][1..] == [];
      }
    }
  }

  lemma LongerRun(t: Text, context: Context, run: Run, p: string)
    ensures RunMatches(t, context, run.(patterns := run.patterns + [p]))
      <==> RunMatches(t, context, run) || Matches(t, context, run.field, p)
  {
  }

  lemma {:induction false} RouteAppend(t: Text, context: Context, rules: seq<OldRule>, r: OldRule, default: string)
    ensures Route(t, context, rules + [r], default)
      == Route(t, context, rules, if RouteOne(t, context, r).Some? then RouteOne(t, context, r).value else default)
  {
    if rules == [] {
      assert rules + [r] == [r] && [r][1..] == [];
    } else {
      assert (rules + [r])[1..] == rules[1..] + [r];
      RouteAppend(t, context, rules[1..], r, default);
    }
  }

  lemma {:induction false} RunsRoute(t: Text, context: Context, rules: seq<OldRule>, default: string)
    ensures Route(t, context, rules, default) ==
      var d := RouteRuns(t, context, Runs(rules)); if d.Some? then d.value else default
    decreases |rules|
  {
    if rules != [] {
      var init, r := rules[..|rules| - 1], rules[|rules| - 1];
      assert rules == init + [r];
      var one := RouteOne(t, context, r);
      RouteAppend(t, context, init, r, default);
      RunsRoute(t, context, init, if one.Some? then one.value else default);
      AddRouted(t, context, Runs(init), r);
    }
  }

  // ------------------------------------------------------------ the converted config routes as the runs do

  lemma SignalAnswers(t: Text, cfg: Config, context: Context, runs: seq<Run>, i: nat)
    requires Holding(cfg, runs) && i < |runs|
    ensures Answer(t, cfg, context, cfg.rules[i].condition) ==
      if runs[i].field == "" then Refused else Holds(RunMatches(t, context, runs[i]))
  {
    var v := if runs[i].field == "" then Refused else Holds(RunMatches(t, context, runs[i]));
    var list := ListNameOf(runs, i);
    var matcher := Object(None, None, None, Some(runs[i].field), [GlobInList(list)]);
    assert Evaluate(t, cfg, context, matcher, 1) == v by {
      assert ListHeld(cfg.lists, runs, i);
    }
    assert EvaluateEach(t, cfg, context, [matcher], true, 1) == v by {
      assert [matcher][1..] == [];
    }
    assert Evaluate(t, cfg, context, SignalOf(runs, i), 2) == v;
    assert SignalHeld(cfg.signals, runs, i);
    assert Evaluate(t, cfg, context, Ref(SignalNameOf(runs, i)), 3) == v;
    AnswerIs(t, cfg, context, Ref(SignalNameOf(runs, i)), 3);
  }

  lemma {:induction false} ConvertedRoutes(t: Text, cfg: Config, context: Context, runs: seq<Run>, i: nat)
    requires Holding(cfg, runs) && i <= |runs|
    requires forall j | 0 <= j < |runs| :: runs[j].field != ""
    ensures Resolve(t, cfg, context, cfg.rules[i..]) ==
      var d := RouteRuns(t, context, runs[i..]); Some(if d.Some? then d.value else cfg.default)
    decreases |runs| - i
  {
    if i < |runs| {
      SignalAnswers(t, cfg, context, runs, i);
      assert cfg.rules[i..][1..] == cfg.rules[i + 1..] && runs[i..][1..] == runs[i + 1..];
      ConvertedRoutes(t, cfg, context, runs, i + 1);
    }
  }

  predicate NamedFields(rules: seq<OldRule>) {
    forall i | 0 <= i < |rules| :: IsRule(rules[i]) ==> FieldOf(rules[i]) != ""
  }

  lemma {:induction false} RunFieldsNamed(rules: seq<OldRule>)
    requires NamedFields(rules)
    ensures forall j | 0 <= j < |Runs(rules)| :: Runs(rules)[j].field != ""
    decreases |rules|
  {
    if rules != [] {
      RunFieldsNamed(rules[..|rules| - 1]);
    }
  }

  /** A converted file picks the destination of the first version 1 rule that matches, or the default. */
  lemma NamedFieldsRoute(t: Text, cfg: Config, context: Context, rules: seq<OldRule>)
    requires Holding(cfg, Runs(rules)) && NamedFields(rules)
    ensures Resolve(t, cfg, context, cfg.rules) == Some(Route(t, context, rules, cfg.default))
  {
    RunFieldsNamed(rules);
    RunsRoute(t, context, rules, cfg.default);
    assert cfg.rules[0..] == cfg.rules && Runs(rules)[0..] == Runs(rules);
    ConvertedRoutes(t, cfg, context, Runs(rules), 0);
  }

  lemma {:induction false} FieldInRuns(rules: seq<OldRule>, k: nat) returns (j: nat)
    requires k < |rules| && IsRule(rules[k])
    ensures j < |Runs(rules)| && Runs(rules)[j].field == FieldOf(rules[k])
    decreases |rules|
  {
    var init, r := rules[..|rules| - 1], rules[|rules| - 1];
    if k < |init| {
      j := FieldInRuns(init, k);
    } else {
      j := |Runs(rules)| - 1;
    }
  }

  /** On the empty context no named run matches, and a run over a field without name is refused. */
  lemma {:induction false} NamelessRefused(t: Text, cfg: Config, runs: seq<Run>, i: nat, j: nat)
    requires Holding(cfg, runs) && i <= j < |runs| && runs[j].field == ""
    ensures Resolve(t, cfg, map[], cfg.rules[i..]) == None
    decreases j - i
  {
    hide ListHeld, SignalHeld, SignalNameOf, ListNameOf, Answer;
    SignalAnswers(t, cfg, map[], runs, i);
    assert cfg.rules[i..][1..] == cfg.rules[i + 1..];
    if i < j {
      NamelessRefused(t, cfg, runs, i + 1, j);
    }
  }

  /** Conversion keeps the routing of every context exactly when no rule is over a field without a name. */
  lemma ConversionKeepsRoutingExactly(t: Text, cfg: Config, rules: seq<OldRule>)
    requires Holding(cfg, Runs(rules))
    ensures (forall context :: Resolve(t, cfg, context, cfg.rules) == Some(Route(t, context, rules, cfg.default)))
      <==> NamedFields(rules)
  {
    if NamedFields(rules) {
      forall context ensures Resolve(t, cfg, context, cfg.rules) == Some(Route(t, context, rules, cfg.default)) {
        NamedFieldsRoute(t, cfg, context, rules);
      }
    } else {
      var k: nat :| k < |rules| && IsRule(rules[k]) && FieldOf(rules[k]) == "";
      var j := FieldInRuns(rules, k);
      NamelessRefused(t, cfg, Runs(rules), 0, j);
      assert cfg.rules[0..] == cfg.rules;
      assert Resolve(t, cfg, map[], cfg.rules) == None;
    }
  }
}
