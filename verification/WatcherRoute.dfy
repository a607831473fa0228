/**
 The watcher's own reading of version 1 routing files (`_resolve_route` in scripts/cbz_watcher.py), compared with routing
 by the converted file: a rule acts alike in both exactly when it is safe, and safe rules make the files agree.
 */
module WatcherRoute {
  import opened Outcomes
  import opened RoutingPredicates
  import opened RoutingV1

  /** A version 1 file; destinations are paths. */
  datatype OldFile = OldFile(rules: seq<OldRule>, destinations: map<string, string>, default: string)

  const COMICINFO_PREFIX := "comicinfo."

  /** What `build_context` makes: the two names, and fields of the archive's metadata. */
  predicate Built(context: Context) {
    && "source" in context && "title" in context && context["source"] != "" && context["title"] != ""
    && forall k | k in context :: k == "source" || k == "title" || COMICINFO_PREFIX <= k
  }

  /** Facts of `fnmatch`, `lower` and the keys of the two names. */
  ghost predicate SaneText(t: Text, lower: string -> string) {
    && t.key("source") == "source" && t.key("title") == "title" && t.key("") == ""
    && (forall s :: t.glob(s, "") ==> s == "")
    && lower("") == "" && forall s | s != "" :: lower(s) != ""
  }

  // ------------------------------------------------------------ `_resolve_route`

  function Or(o: Option<string>, otherwise: string): string {
    if o.Some? then o.value else otherwise
  }

  /** The two fields the watcher knows, written as they are here. */
  predicate Literal(field: string) {
    field == "source" || field == "title"
  }

  predicate WatcherMatches(t: Text, lower: string -> string, context: Context, r: OldRule)
    requires Built(context)
  {
    Literal(FieldOf(r)) && t.glob(lower(context[FieldOf(r)]), lower(Or(r.pattern, "")))
  }

  /** A destination that is not defined stands for the default's path. */
  function PathOf(f: OldFile, key: string): string {
    if key in f.destinations then f.destinations[key]
    else if f.default in f.destinations then f.destinations[f.default] else ""
  }

  /** The key and the path of the first rule that matches, or of the default. */
  function WatcherRoutes(t: Text, lower: string -> string, context: Context, f: OldFile, rules: seq<OldRule>): (string, string)
    requires Built(context)
  {
    if rules == [] then (f.default, PathOf(f, f.default))
    else if WatcherMatches(t, lower, context, rules[0])
      then (Or(rules[0].destination, ""), PathOf(f, Or(rules[0].destination, "")))
    else WatcherRoutes(t, lower, context, f, rules[1..])
  }

  /** The watcher takes a rule over `source` or `title`, so written, whose pattern matches that name in lower case. */
  predicate Takes(t: Text, lower: string -> string, context: Context, r: OldRule)
    requires Built(context)
  {
    var pattern := lower(Or(r.pattern, ""));
    match r.field
    case None => t.glob(lower(context["source"]), pattern)
    case Some(field) =>
      (field == "source" && t.glob(lower(context["source"]), pattern))
      || (field == "title" && t.glob(lower(context["title"]), pattern))
  }

  /** The first rule the watcher takes gives the key and the path, also when it has no destination; without one the default
      does. */
  lemma {:induction false} WatcherTakesTheFirst(t: Text, lower: string -> string, context: Context, f: OldFile,
                                                rules: seq<OldRule>, i: nat)
    requires Built(context) && i <= |rules| && forall j | 0 <= j < i :: !Takes(t, lower, context, rules[j])
    ensures i < |rules| && Takes(t, lower, context, rules[i]) ==>
      WatcherRoutes(t, lower, context, f, rules)
        == (Or(rules[i].destination, ""), PathOf(f, Or(rules[i].destination, "")))
    ensures i == |rules| ==> WatcherRoutes(t, lower, context, f, rules) == (f.default, PathOf(f, f.default))
  {
    if i > 0 {
      assert !Takes(t, lower, context, rules[0]);
      forall j | 0 <= j < i - 1 ensures !Takes(t, lower, context, rules[1..][j]) {
        assert rules[1..][j] == rules[j + 1];
      }
      WatcherTakesTheFirst(t, lower, context, f, rules[1..], i - 1);
    }
  }

  // ------------------------------------------------------------ rules that act alike

  /** The destination a rule gives the watcher. */
  function WatcherOne(t: Text, lower: string -> string, context: Context, r: OldRule): Option<string>
    requires Built(context)
  {
    if WatcherMatches(t, lower, context, r) then Some(Or(r.destination, "")) else None
  }

  /** Some context can have the field. */
  predicate Reachable(t: Text, field: string) {
    t.key(field) == "source" || t.key(field) == "title" || COMICINFO_PREFIX <= t.key(field)
  }

  ghost predicate MatchesNothing(t: Text, change: string -> string, pattern: string) {
    forall s | s != "" :: !t.glob(change(s), change(pattern))
  }

  ghost predicate MatchesTheSame(t: Text, lower: string -> string, pattern: string) {
    forall s | s != "" :: t.glob(lower(s), lower(pattern)) == t.glob(t.fold(s), t.fold(pattern))
  }

  /**
   A rule over a name, written as it is here, that has a destination and a pattern that means the same in lower case and
   case-folded; or a rule over a field no context has; or a comment.
   */
  ghost predicate Safe(t: Text, lower: string -> string, r: OldRule) {
    r.pattern.Some? ==>
      if Literal(FieldOf(r)) then
        if r.destination.Some? then MatchesTheSame(t, lower, r.pattern.value) else MatchesNothing(t, lower, r.pattern.value)
      else r.destination.Some? && Reachable(t, FieldOf(r)) ==> MatchesNothing(t, t.fold, r.pattern.value)
  }

  lemma CommentsDoNothing(t: Text, lower: string -> string, context: Context, r: OldRule)
    requires SaneText(t, lower) && Built(context) && r.pattern.None?
    ensures WatcherOne(t, lower, context, r) == None == RouteOne(t, context, r)
  {
  }

  lemma SafeActsAlike(t: Text, lower: string -> string, context: Context, r: OldRule)
    requires SaneText(t, lower) && Built(context) && Safe(t, lower, r)
    ensures WatcherOne(t, lower, context, r) == RouteOne(t, context, r)
  {
    if r.pattern.None? {
      CommentsDoNothing(t, lower, context, r);
    }
  }

  /** Contexts that show a difference. */
  function Names(source: string, title: string): Context {
    map["source" := source, "title" := title]
  }

  function WithField(source: string, title: string, key: string, value: string): Context {
    map["source" := source, "title" := title][key := value]
  }

  lemma UnsafeActsOtherwise(t: Text, lower: string -> string, r: OldRule) returns (context: Context)
    requires SaneText(t, lower) && !Safe(t, lower, r)
    ensures Built(context) && WatcherOne(t, lower, context, r) != RouteOne(t, context, r)
  {
    var p := r.pattern.value;
    if Literal(FieldOf(r)) {
      if r.destination.Some? {
        var s :| s != "" && t.glob(lower(s), lower(p)) != t.glob(t.fold(s), t.fold(p));
        context := Names(s, s);
      } else {
        var s :| s != "" && t.glob(lower(s), lower(p));
        context := Names(s, s);
      }
    } else {
      var s :| s != "" && t.glob(t.fold(s), t.fold(p));
      context := WithField(s, s, t.key(FieldOf(r)), s);
    }
  }

  /** A rule acts alike on every context exactly when it is safe. */
  lemma RuleActsAlikeExactly(t: Text, lower: string -> string, r: OldRule)
    requires SaneText(t, lower)
    ensures (forall context | Built(context) :: WatcherOne(t, lower, context, r) == RouteOne(t, context, r))
      <==> Safe(t, lower, r)
  {
    if Safe(t, lower, r) {
      forall context | Built(context) ensures WatcherOne(t, lower, context, r) == RouteOne(t, context, r) {
        SafeActsAlike(t, lower, context, r);
      }
    } else {
      var context := UnsafeActsOtherwise(t, lower, r);
    }
  }

  // ------------------------------------------------------------ files that route alike

  /** What `parse` asks of the converted file. */
  predicate Accepted(f: OldFile) {
    f.default in f.destinations
    && forall i | 0 <= i < |f.rules| :: IsRule(f.rules[i]) ==> f.rules[i].destination.value in f.destinations
  }

  lemma {:induction false} WatcherIsRoute(t: Text, lower: string -> string, context: Context, f: OldFile, rules: seq<OldRule>)
    requires Built(context) && f.default in f.destinations
    requires forall i | 0 <= i < |rules| :: IsRule(rules[i]) ==> rules[i].destination.value in f.destinations
    requires forall i | 0 <= i < |rules| :: WatcherOne(t, lower, context, rules[i]) == RouteOne(t, context, rules[i])
    ensures var d := Route(t, context, rules, f.default);
      d in f.destinations && WatcherRoutes(t, lower, context, f, rules) == (d, f.destinations[d])
  {
    if rules != [] {
      assert WatcherOne(t, lower, context, rules[0]) == RouteOne(t, context, rules[0]);
      WatcherIsRoute(t, lower, context, f, rules[1..]);
    }
  }

  /** The converted file sends an archive to the key and the path that the watcher gives it by the old file. */
  ghost predicate Agree(t: Text, lower: string -> string, cfg: Config, f: OldFile, context: Context)
    requires Built(context)
  {
    var d := Resolve(t, cfg, context, cfg.rules);
    && d.Some? && d.value in f.destinations
    && WatcherRoutes(t, lower, context, f, f.rules) == (d.value, f.destinations[d.value])
  }

  /** The converted file sends an archive elsewhere than the watcher does. */
  ghost predicate Differ(t: Text, lower: string -> string, cfg: Config, f: OldFile, context: Context)
    requires Built(context)
  {
    var d := Resolve(t, cfg, context, cfg.rules);
    d.Some? && d.value in f.destinations && WatcherRoutes(t, lower, context, f, f.rules).1 != f.destinations[d.value]
  }

  ghost predicate Converted(cfg: Config, f: OldFile) {
    Holding(cfg, Runs(f.rules)) && cfg.default == f.default
  }

  /** A converted file of safe rules routes every archive where the watcher routes it by the old file. */
  lemma ConvertedAgreesWithWatcher(t: Text, lower: string -> string, cfg: Config, f: OldFile, context: Context)
    requires SaneText(t, lower) && Built(context) && Accepted(f) && NamedFields(f.rules) && Converted(cfg, f)
    requires forall i | 0 <= i < |f.rules| :: Safe(t, lower, f.rules[i])
    ensures Agree(t, lower, cfg, f, context)
  {
    hide Safe, Built, Holding, NamedFields, Resolve, Route, WatcherRoutes, WatcherOne;
    NamedFieldsRoute(t, cfg, context, f.rules);
    forall i | 0 <= i < |f.rules| ensures WatcherOne(t, lower, context, f.rules[i]) == RouteOne(t, context, f.rules[i]) {
      SafeActsAlike(t, lower, context, f.rules[i]);
    }
    WatcherIsRoute(t, lower, context, f, f.rules);
  }

  // ------------------------------------------------------------ files that do not route alike

  /** The pattern `*`. */
  ghost predicate StarMatchesAll(t: Text, lower: string -> string) {
    forall s :: t.glob(s, t.fold("*")) && t.glob(s, lower("*"))
  }

  /** A rule and, when it has no destination, one behind it that sends everything away from the default. */
  function FileWith(r: OldRule): OldFile {
    var key := Or(r.destination, "manga");
    OldFile(if r.destination.Some? then [r] else [r, OldRule(Some("*"), Some(key), None)],
            map[key := "/manga", key + "'" := "/comics"], key + "'")
  }

  lemma FileWithRoutes(t: Text, lower: string -> string, r: OldRule, context: Context)
    requires SaneText(t, lower) && StarMatchesAll(t, lower) && Built(context) && r.pattern.Some? && FieldOf(r) != ""
    ensures var f := FileWith(r); var key := Or(r.destination, "manga");
      && Accepted(f) && NamedFields(f.rules) && key + "'" != key
      && Route(t, context, f.rules, f.default)
         == (if r.destination.None? || RouteOne(t, context, r).Some? then key else key + "'")
      && WatcherRoutes(t, lower, context, f, f.rules).1
         == (if r.destination.None? != WatcherOne(t, lower, context, r).Some? then "/manga" else "/comics")
  {
    var f, key := FileWith(r), Or(r.destination, "manga");
    assert |key + "'"| != |key|;
    if r.destination.Some? {
      assert f.rules[1..] == [];
    } else {
      var star := OldRule(Some("*"), Some(key), None);
      assert f.rules[1..] == [star] && [star][1..] == [];
      assert Route(t, context, [star], f.default) == key;
      assert WatcherMatches(t, lower, context, star);
      assert PathOf(f, "") == "/comics" by {
        assert "" !in f.destinations;
      }
    }
  }

  /** For a rule that is not safe there is a file, of safe rules otherwise, that routes some archive elsewhere. */
  lemma UnsafeRuleBreaksAFile(t: Text, lower: string -> string, r: OldRule) returns (f: OldFile, context: Context)
    requires SaneText(t, lower) && StarMatchesAll(t, lower) && FieldOf(r) != "" && !Safe(t, lower, r)
    ensures r in f.rules && Accepted(f) && NamedFields(f.rules) && Built(context)
    ensures forall other | other in f.rules && other != r :: Safe(t, lower, other)
    ensures forall cfg | Converted(cfg, f) :: Differ(t, lower, cfg, f, context)
  {
    hide Resolve, Holding, WatcherRoutes, Route;
    f := FileWith(r);
    context := UnsafeActsOtherwise(t, lower, r);
    FileWithRoutes(t, lower, r, context);
    forall cfg | Converted(cfg, f) ensures Differ(t, lower, cfg, f, context) {
      NamedFieldsRoute(t, cfg, context, f.rules);
    }
  }

  // ------------------------------------------------------------ two such files

  /** `{"match": "Title", "pattern": "*", "dest": key}`: skipped by the watcher, a rule over the title when converted. */
  lemma TitleRoutesElsewhere(t: Text, lower: string -> string, cfg: Config, f: OldFile, context: Context, key: string)
    requires SaneText(t, lower) && StarMatchesAll(t, lower) && Built(context) && t.key("Title") == "title"
    requires f.rules == [OldRule(Some("*"), Some(key), Some("Title"))]
    requires Converted(cfg, f)
    ensures Resolve(t, cfg, context, cfg.rules) == Some(key)
    ensures WatcherRoutes(t, lower, context, f, f.rules) == (f.default, PathOf(f, f.default))
  {
    NamedFieldsRoute(t, cfg, context, f.rules);
    assert f.rules[1..] == [];
  }

  /** `{"pattern": "*"}` before another rule: the watcher stops at it with the default, the conversion drops it. */
  lemma NoDestinationRoutesElsewhere(t: Text, lower: string -> string, cfg: Config, f: OldFile, context: Context, key: string)
    requires SaneText(t, lower) && StarMatchesAll(t, lower) && Built(context)
    requires f.rules == [OldRule(Some("*"), None, None), OldRule(Some("*"), Some(key), None)]
    requires Converted(cfg, f)
    ensures Resolve(t, cfg, context, cfg.rules) == Some(key)
    ensures WatcherRoutes(t, lower, context, f, f.rules) == ("", PathOf(f, ""))
  {
    NamedFieldsRoute(t, cfg, context, f.rules);
    assert f.rules[1..] == [f.rules[1]] && f.rules[1..][1..] == [];
    assert Route(t, context, f.rules[1..], f.default) == key;
  }
}
