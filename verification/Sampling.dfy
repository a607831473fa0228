/**
 Classifying a batch from several sampled archives: `resolve` and the sample order of scripts/cbz_routing.py, and
 `WatcherRouter.classify` and `note_move` of scripts/cbz_watcher_router.py. Stopping at a terminal sample gives the
 decision that reading all samples would give.
 */
module Sampling {
  import opened Outcomes
  import opened OperatorMeanings
  import opened RoutingPredicates
  import opened SeriesIndex

  datatype Override = Override(canonical: string, aliases: seq<string>, destination: Option<string>)

  /** What is known of a series before any archive is read: a pinned destination, or an existing folder. */
  datatype Standing = Standing(canonical: Option<string>, pinned: Option<string>, hit: Option<Entry>, ambiguous: bool)

  /** `evidence` is None without a matching rule, and for decisions that are not read from metadata. */
  datatype Decision = Decision(
    destination: string,
    canonical: Option<string>,
    folder: Option<string>,
    ambiguous: bool,
    evidence: Option<Strength>,
    authoritative: bool,
    resolved: bool)

  // ------------------------------------------------------------ resolving

  /** `resolve` without routing of unresolved archives; None when evaluating a rule raises. */
  ghost function Decide(t: Text, cfg: Config, st: Standing, context: Context): Option<Decision> {
    if st.pinned.Some? then Some(Decision(st.pinned.value, st.canonical, None, false, None, true, true))
    else if st.hit.Some? then
      Some(Decision(st.hit.value.destination, st.canonical, Some(st.hit.value.path), st.ambiguous, None, true, true))
    else match FirstMatch(t, cfg, context, cfg.rules)
      case Wins(r) => Some(Decision(r.destination, st.canonical, None, st.ambiguous, Some(r.strength), false, true))
      case NoRule => Some(Decision(cfg.default, st.canonical, None, st.ambiguous, None, false, false))
      case Raised => None
  }

  /** A pinned series goes where it is pinned, one with a folder to that folder, and only another by the rules; what no rule
      takes goes to the default, unresolved. */
  lemma Precedence(t: Text, cfg: Config, st: Standing, context: Context, i: nat)
    ensures var d := Decide(t, cfg, st, context);
      && (st.pinned.Some? ==> d.Some? && d.value.destination == st.pinned.value && d.value.folder == None
                              && d.value.authoritative && d.value.resolved && d.value.evidence == None)
      && (st.pinned.None? && st.hit.Some? ==>
            && d.Some? && d.value.destination == st.hit.value.destination && d.value.folder == Some(st.hit.value.path)
            && d.value.authoritative && d.value.resolved && d.value.evidence == None)
      && (st.pinned.None? && st.hit.None? && FirstHolds(t, cfg, context, cfg.rules, i) ==>
            && d.Some? && d.value.destination == cfg.rules[i].destination && d.value.folder == None
            && !d.value.authoritative && d.value.resolved && d.value.evidence == Some(cfg.rules[i].strength))
      && (st.pinned.None? && st.hit.None? && NoneHolds(t, cfg, context, cfg.rules) ==>
            && d.Some? && d.value.destination == cfg.default && d.value.folder == None
            && !d.value.authoritative && !d.value.resolved && d.value.evidence == None)
      && (d.Some? ==> d.value.canonical == st.canonical && d.value.ambiguous == (st.pinned.None? && st.ambiguous))
  {
    FirstRuleWins(t, cfg, context, cfg.rules);
  }

  /** `resolve` decides as `Decide` on every context. */
  ghost predicate Resolves(t: Text, cfg: Config, st: Standing, resolve: Context -> Decision) {
    forall context :: Decide(t, cfg, st, context) == Some(resolve(context))
  }

  /** A parsed config always resolves. */
  lemma ParsedConfigsDecide(t: Text, cfg: Config, order: seq<Combinator>, st: Standing, context: Context)
    requires Parsed(cfg, order) && CarefulConfig(cfg, order)
    ensures Decide(t, cfg, st, context).Some?
  {
    ParsedConfigsResolve(t, cfg, order, context);
  }

  // ------------------------------------------------------------ ranking samples

  function StrengthOrder(e: Option<Strength>): nat {
    match e
    case None => 0
    case Some(Weak) => 1
    case Some(Strong) => 2
  }

  /** `sample_rank(a) > sample_rank(b)` */
  predicate Outranks(a: Decision, b: Decision) {
    if a.authoritative != b.authoritative then a.authoritative
    else StrengthOrder(a.evidence) > StrengthOrder(b.evidence)
  }

  /** An authoritative decision outranks one that is not; else strong evidence outranks weak and none, and weak none. */
  lemma RankingExactly(a: Decision, b: Decision)
    ensures Outranks(a, b) <==>
      || (a.authoritative && !b.authoritative)
      || (a.authoritative == b.authoritative && a.evidence == Some(Strong) && b.evidence != Some(Strong))
      || (a.authoritative == b.authoritative && a.evidence == Some(Weak) && b.evidence == None)
  {
  }

  /** `is_terminal_sample` */
  predicate Terminal(d: Decision) {
    d.authoritative || d.evidence == Some(Strong)
  }

  /** A sample is terminal exactly when no other that is as authoritative could outrank it. */
  lemma TerminalExactly(d: Decision)
    ensures Terminal(d) <==> d.authoritative || forall e: Decision | !e.authoritative :: !Outranks(e, d)
  {
    if !d.authoritative && d.evidence != Some(Strong) {
      assert Outranks(d.(evidence := Some(Strong)), d);
    }
  }

  /** Sample `k` is the first of those that no sample outranks. */
  ghost predicate FirstBest(resolve: Context -> Decision, contexts: seq<Context>, k: nat) {
    && k < |contexts|
    && (forall j | 0 <= j < k :: Outranks(resolve(contexts[k]), resolve(contexts[j])))
    && forall j | k <= j < |contexts| :: !Outranks(resolve(contexts[j]), resolve(contexts[k]))
  }

  /** Whether a decision is authoritative does not depend on the sample; if it is, the sample does not matter at all. */
  lemma AuthorityIgnoresTheSample(t: Text, cfg: Config, st: Standing, resolve: Context -> Decision, a: Context, b: Context)
    requires Resolves(t, cfg, st, resolve)
    ensures resolve(a).authoritative == resolve(b).authoritative == (st.pinned.Some? || st.hit.Some?)
    ensures resolve(a).authoritative ==> resolve(a) == resolve(b)
  {
    assert Decide(t, cfg, st, a) == Some(resolve(a)) && Decide(t, cfg, st, b) == Some(resolve(b));
  }

  /** No sample outranks a terminal one. */
  ghost predicate TerminalIsBest(resolve: Context -> Decision) {
    forall a, b | Terminal(resolve(a)) :: !Outranks(resolve(b), resolve(a))
  }

  lemma ResolvingTerminalIsBest(t: Text, cfg: Config, st: Standing, resolve: Context -> Decision)
    requires Resolves(t, cfg, st, resolve)
    ensures TerminalIsBest(resolve)
  {
    forall a, b | Terminal(resolve(a)) ensures !Outranks(resolve(b), resolve(a)) {
      AuthorityIgnoresTheSample(t, cfg, st, resolve, a, b);
    }
  }

  lemma FirstBestGrows(resolve: Context -> Decision, contexts: seq<Context>, k: nat, i: nat)
    requires k < i < |contexts| && FirstBest(resolve, contexts[..i], k)
    ensures FirstBest(resolve, contexts[..i + 1], if Outranks(resolve(contexts[i]), resolve(contexts[k])) then i else k)
  {
    assert forall j | 0 <= j < i :: contexts[..i + 1][j] == contexts[..i][j] == contexts[j];
  }

  lemma FirstBestStays(resolve: Context -> Decision, contexts: seq<Context>, k: nat, i: nat)
    requires TerminalIsBest(resolve)
    requires k <= i < |contexts| && FirstBest(resolve, contexts[..i + 1], k) && Terminal(resolve(contexts[i]))
    ensures FirstBest(resolve, contexts, k)
  {
    assert forall j | 0 <= j <= i :: contexts[..i + 1][j] == contexts[j];
    forall j | i < j < |contexts| ensures !Outranks(resolve(contexts[j]), resolve(contexts[k])) {
      assert !Outranks(resolve(contexts[j]), resolve(contexts[i]));
      assert !Outranks(resolve(contexts[i]), resolve(contexts[k]));
    }
  }

  /** The loop of `classify`: although it stops at a terminal sample, its decision is the first best of all samples; with
      no sample it decides without metadata. */
  method Classify(resolve: Context -> Decision, contexts: seq<Context>, bare: Context)
    returns (decision: Decision, read: nat)
    requires TerminalIsBest(resolve)
    // It reads up to the first terminal sample, and all when none is.
    ensures read <= |contexts| && forall j | 0 <= j < read - 1 :: !Terminal(resolve(contexts[j]))
    ensures read < |contexts| ==> read > 0 && Terminal(resolve(contexts[read - 1]))
    ensures contexts == [] ==> decision == resolve(bare)
    ensures contexts != [] ==> exists k: nat :: FirstBest(resolve, contexts, k) && decision == resolve(contexts[k])
  {
    var best: Option<Decision> := None;
    ghost var k := 0;
    var i := 0;
    while i < |contexts|
      invariant i <= |contexts| && forall j | 0 <= j < i :: !Terminal(resolve(contexts[j]))
      invariant if i == 0 then best.None?
        else k < i && best == Some(resolve(contexts[k])) && FirstBest(resolve, contexts[..i], k)
    {
      var candidate := resolve(contexts[i]);
      if i > 0 {
        FirstBestGrows(resolve, contexts, k, i);
      }
      if best.None? || Outranks(candidate, best.value) {
        best := Some(candidate);
        k := i;
      }
      if Terminal(candidate) {
        FirstBestStays(resolve, contexts, k, i);
        return best.value, i + 1;
      }
      i := i + 1;
    }
    if best.None? {
      return resolve(bare), 0;
    }
    assert contexts[..i] == contexts;
    return best.value, i;
  }

  // ------------------------------------------------------------ the router and its index

  class Router {
    const overrides: seq<Override>
    const indexEnabled: bool
    const index: Index

    constructor (overrides: seq<Override>, indexEnabled: bool, index: Index)
      ensures this.overrides == overrides && this.indexEnabled == indexEnabled && this.index == index
    {
      this.overrides, this.indexEnabled, this.index := overrides, indexEnabled, index;
    }

    /** `SeriesOverride.matches` */
    predicate MatchedBy(o: Override, key: string) {
      key == index.names.key(o.canonical) || exists alias | alias in o.aliases :: key == index.names.key(alias)
    }

    /** `override_for`: the first override with the key of the name, which must not be empty. */
    function OverrideFor(series: string, overrides: seq<Override>): Option<Override> {
      if index.names.key(series) == "" || overrides == [] then None
      else if MatchedBy(overrides[0], index.names.key(series)) then Some(overrides[0])
      else OverrideFor(series, overrides[1..])
    }

    /** The override at `i` has the series by its name or one of its aliases, and none before it has. */
    ghost predicate FirstNamed(series: string, overrides: seq<Override>, i: nat) {
      && i < |overrides| && Named(overrides[i], series)
      && forall j | 0 <= j < i :: !Named(overrides[j], series)
    }

    ghost predicate Named(o: Override, series: string) {
      exists name :: (name == o.canonical || name in o.aliases) && index.names.key(name) == index.names.key(series)
    }

    /** The first override that has the series decides, and none does for a series without key. */
    lemma OverrideIsFirst(series: string, overrides: seq<Override>, i: nat)
      ensures index.names.key(series) == "" ==> OverrideFor(series, overrides) == None
      ensures index.names.key(series) != "" && FirstNamed(series, overrides, i) ==>
        OverrideFor(series, overrides) == Some(overrides[i])
      ensures (forall j | 0 <= j < |overrides| :: !Named(overrides[j], series)) ==> OverrideFor(series, overrides) == None
    {
      if overrides != [] && index.names.key(series) != "" {
        OverrideIsFirst(series, overrides[1..], if i > 0 then i - 1 else 0);
        assert forall j | 0 < j < |overrides| :: overrides[1..][j - 1] == overrides[j];
      }
    }

    /** The name the index is asked for. */
    function Effective(series: string): string {
      var o := OverrideFor(series, overrides);
      if o.Some? then o.value.canonical else series
    }

    /** The paths the index knows for the series. */
    ghost function Known(series: string): set<Entry>
      reads index
    {
      BestOf(index.names, index.priority, index.seen, Series(index.names.key(Effective(series))))
    }

    /** The part of `resolve` before the rules. */
    method StandingOf(series: string) returns (st: Standing)
      requires index.Valid()
      ensures var o := OverrideFor(series, overrides);
        && st.canonical == (if o.Some? then Some(o.value.canonical) else None)
        && st.pinned == (if o.Some? then o.value.destination else None)
        && (st.hit.None? <==> st.pinned.Some? || Known(series) == {})
        && (st.hit.Some? ==> st.hit.value in Known(series))
        && (forall e | st.hit.Some? && e in Known(series) ::
              e == st.hit.value || Before(index.names, index.priority, st.hit.value, e))
        && (st.ambiguous <==> st.pinned.None? && |Known(series)| > 1)
    {
      var o := OverrideFor(series, overrides);
      st := Standing(if o.Some? then Some(o.value.canonical) else None, if o.Some? then o.value.destination else None,
                     None, false);
      if st.pinned.None? {
        var hit := index.Lookup(Effective(series));
        var ambiguous := index.IsAmbiguous(Effective(series));
        st := st.(hit := hit, ambiguous := ambiguous);
      }
    }

    /** `note_move`; `destination` is None for a folder that is no configured destination. */
    method NoteMove(series: string, destination: Option<string>, path: string)
      requires index.Valid()
      modifies index
      ensures index.Valid()
      ensures index.seen == old(index.seen) +
        if indexEnabled && destination.Some? then {Observation(series, Entry(destination.value, path))} else {}
    {
      if indexEnabled && destination.Some? {
        index.Add(series, destination.value, path);
      }
    }

    /** The noted folder is filed under the name it was moved by, but looked up under the name an override gives it. So
        the series is decided without metadata afterwards exactly when it was before, or when the folder is filed where
        the look-up looks. */
    method MoveThenClassify(series: string, destination: Option<string>, path: string) returns (st: Standing)
      requires index.Valid()
      modifies index
      ensures index.Valid()
      ensures var o := OverrideFor(series, overrides);
        && st.canonical == (if o.Some? then Some(o.value.canonical) else None)
        && st.pinned == (if o.Some? then o.value.destination else None)
      ensures st.pinned.Some? || st.hit.Some? <==>
        || st.pinned.Some?
        || old(Known(series)) != {}
        || (indexEnabled && destination.Some? && FoundUnderOwnName(series, path))
    {
      NoteMove(series, destination, path);
      st := StandingOf(series);
      if indexEnabled && destination.Some? {
        var o := Observation(series, Entry(destination.value, path));
        if FoundUnderOwnName(series, path) {
          index.SeenIsLocated(o);
        } else {
          OtherBucketSame(index.names, index.priority, old(index.seen), Series(index.names.key(Effective(series))), o);
        }
      }
    }

    /** The folder gets a key, and it is the key under which the series is looked up. */
    predicate FoundUnderOwnName(series: string, path: string) {
      && !IsExcluded(index.names, path) && index.names.key(series) != ""
      && index.names.key(Effective(series)) == index.names.key(series)
    }
  }

  /** A series moved by an alias of an override without destination is classified from metadata again. */
  method AliasIsNotSticky() returns (st: Standing)
    ensures st.canonical == Some("Demon Slayer") && st.pinned.None? && st.hit.None?
  {
    var index := new Index(Names(x => x, x => x, x => x, x => x, {}), ["manga"]);
    var router := new Router([Override("Demon Slayer", ["Kimetsu no Yaiba"], None)], true, index);
    var aliased := router.overrides[0];
    assert "Kimetsu no Yaiba" in aliased.aliases;
    assert router.OverrideFor("Kimetsu no Yaiba", router.overrides) == Some(aliased);
    assert router.Known("Kimetsu no Yaiba") == {};
    assert |"Kimetsu no Yaiba"| != |"Demon Slayer"|;
    st := router.MoveThenClassify("Kimetsu no Yaiba", Some("manga"), "/manga/Kimetsu no Yaiba");
  }
}
