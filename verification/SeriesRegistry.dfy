/**
 The registry of canonical series and their aliases: `build_registry`, `SeriesResolver.register` and the exact part of
 `resolve_from_registry` in comic_automation/series_resolver.py. Registering keeps the two alias maps what building
 them from scratch would give.
 */
module SeriesRegistry {

  /** `key` is `alias_key`, `safe` is `safe_name`. */
  datatype Names = Names(key: string -> string, safe: string -> string, strip: string -> string)

  /** A series folder and the names it goes by. */
  datatype Series = Series(path: string, aliases: set<string>)

  /** The exact answers; `NotExact` goes on to the similarity scores. */
  datatype Match = Ambiguous(candidates: set<string>) | Exact(path: string) | NotExact

  predicate GoesBy(n: Names, aliases: set<string>, key: string) {
    exists alias | alias in aliases :: n.key(alias) == key
  }

  /** The folders of the series that claim a key. */
  function Claimants(n: Names, series: seq<Series>, key: string): set<string> {
    set i | 0 <= i < |series| && GoesBy(n, series[i].aliases, key) :: series[i].path
  }

  /** What the maps say of one key: the folder of a sole claimant, all folders of several, nothing without claimant. */
  ghost predicate IndexedAs(key: string, claimants: set<string>, sole: map<string, string>, conflicts: map<string, set<string>>) {
    && (key in sole ==> key != "" && claimants == {sole[key]})
    && (key in conflicts ==> key != "" && claimants == conflicts[key] && |claimants| > 1)
    && (key != "" && claimants != {} ==> key in sole || key in conflicts)
  }

  ghost predicate Indexed(n: Names, series: seq<Series>, sole: map<string, string>, conflicts: map<string, set<string>>) {
    forall key :: IndexedAs(key, Claimants(n, series, key), sole, conflicts)
  }

  /** The maps are determined by the claims: disjoint, and the same whether built at once or step by step. */
  lemma IndexIsDetermined(n: Names, series: seq<Series>, more: seq<Series>, sole: map<string, string>,
                          conflicts: map<string, set<string>>, sole': map<string, string>,
                          conflicts': map<string, set<string>>)
    requires Indexed(n, series, sole, conflicts) && Indexed(n, more, sole', conflicts')
    requires forall key :: Claimants(n, series, key) == Claimants(n, more, key)
    ensures sole == sole' && conflicts == conflicts'
    ensures sole.Keys !! conflicts.Keys
  {
    forall key ensures key in sole ==> key in sole' && sole[key] == sole'[key] && key !in conflicts
      ensures key in sole' ==> key in sole
      ensures key in conflicts <==> key in conflicts'
      ensures key in conflicts ==> conflicts[key] == conflicts'[key]
    {
      IndexedAt(n, series, sole, conflicts, key);
      IndexedAt(n, more, sole', conflicts', key);
    }
  }

  /** A key has a sole owner in the map exactly when one series claims it, and is in conflict exactly when several do. */
  lemma IndexedAt(n: Names, series: seq<Series>, sole: map<string, string>, conflicts: map<string, set<string>>, key: string)
    requires Indexed(n, series, sole, conflicts)
    ensures var c := Claimants(n, series, key);
      && (key in sole <==> key != "" && |c| == 1) && (key in sole ==> c == {sole[key]})
      && (key in conflicts <==> key != "" && |c| > 1) && (key in conflicts ==> c == conflicts[key])
  {
    var c := Claimants(n, series, key);
    assert IndexedAs(key, c, sole, conflicts);
    if key in sole {
      assert c == {sole[key]} && |c| == 1;
    }
  }

  // ------------------------------------------------------------ one more series, or more aliases for one

  /** The series with the folder and these aliases, in place of its first entry or at the end. */
  function Recorded(series: seq<Series>, path: string, aliases: set<string>): seq<Series> {
    if series == [] then [Series(path, aliases)]
    else if series[0].path == path then [Series(path, series[0].aliases + aliases)] + series[1..]
    else [series[0]] + Recorded(series[1..], path, aliases)
  }

  lemma ClaimantsAppend(n: Names, a: seq<Series>, b: seq<Series>, key: string)
    ensures Claimants(n, a + b, key) == Claimants(n, a, key) + Claimants(n, b, key)
  {
    var all := a + b;
    forall p | p in Claimants(n, a, key) ensures p in Claimants(n, all, key) {
      var i :| 0 <= i < |a| && GoesBy(n, a[i].aliases, key) && a[i].path == p;
      assert all[i] == a[i];
    }
    forall p | p in Claimants(n, b, key) ensures p in Claimants(n, all, key) {
      var i :| 0 <= i < |b| && GoesBy(n, b[i].aliases, key) && b[i].path == p;
      assert all[|a| + i] == b[i];
    }
    forall p | p in Claimants(n, all, key) ensures p in Claimants(n, a, key) + Claimants(n, b, key) {
      var i :| 0 <= i < |all| && GoesBy(n, all[i].aliases, key) && all[i].path == p;
      assert all[i] == if i < |a| then a[i] else b[i - |a|];
    }
  }

  lemma ClaimantsOfOne(n: Names, one: Series, key: string)
    ensures Claimants(n, [one], key) == if GoesBy(n, one.aliases, key) then {one.path} else {}
  {
    assert [one][0] == one;
  }

  /** Recording adds the folder to the claimants of its keys and changes nothing else. */
  lemma {:induction false} RecordedClaims(n: Names, series: seq<Series>, path: string, aliases: set<string>, key: string)
    ensures Claimants(n, Recorded(series, path, aliases), key)
      == Claimants(n, series, key) + (if GoesBy(n, aliases, key) then {path} else {})
  {
    if series == [] {
      ClaimantsOfOne(n, Series(path, aliases), key);
    } else {
      var first, rest := series[0], series[1..];
      assert series == [first] + rest;
      ClaimantsAppend(n, [first], rest, key);
      ClaimantsOfOne(n, first, key);
      if first.path == path {
        var merged := Series(path, first.aliases + aliases);
        ClaimantsAppend(n, [merged], rest, key);
        ClaimantsOfOne(n, merged, key);
      } else {
        ClaimantsAppend(n, [first], Recorded(rest, path, aliases), key);
        RecordedClaims(n, rest, path, aliases, key);
      }
    }
  }

  lemma {:induction false} RecordedAt(series: seq<Series>, path: string, aliases: set<string>, j: nat)
    requires j <= |series| && (forall i | 0 <= i < j :: series[i].path != path)
    requires j < |series| ==> series[j].path == path
    ensures Recorded(series, path, aliases) ==
      if j < |series| then series[j := Series(path, series[j].aliases + aliases)] else series + [Series(path, aliases)]
  {
    if j > 0 {
      RecordedAt(series[1..], path, aliases, j - 1);
      assert series == [series[0]] + series[1..];
    }
  }

  lemma OwnKeysClaimed(n: Names, series: seq<Series>, j: nat, key: string)
    requires j < |series| && GoesBy(n, series[j].aliases, key)
    ensures series[j].path in Claimants(n, series, key)
  {
  }

  // ------------------------------------------------------------ the registry

  class Registry {
    const names: Names
    var series: seq<Series>
    var sole: map<string, string>
    var conflicts: map<string, set<string>>

    ghost predicate Valid()
      reads this
    {
      Indexed(names, series, sole, conflicts)
    }

    /** The loops of `build_registry` over the folders and their aliases. */
    static method Targets(names: Names, folders: seq<Series>) returns (targets: map<string, set<string>>)
      ensures HoldsTargets(names, folders, targets)
    {
      targets := map[];
      for i := 0 to |folders|
        invariant HoldsTargets(names, folders[..i], targets)
      {
        var path, rest := folders[i].path, folders[i].aliases;
        NoAliases(names, folders[..i], path, targets);
        while rest != {}
          invariant rest <= folders[i].aliases
          invariant HoldsTargets(names, folders[..i] + [Series(path, folders[i].aliases - rest)], targets)
        {
          var alias :| alias in rest;
          var key := names.key(alias);
          OneAliasMore(names, folders[..i], path, folders[i].aliases - rest, alias, targets);
          assert folders[i].aliases - (rest - {alias}) == folders[i].aliases - rest + {alias};
          rest := rest - {alias};
          if key != "" {
            targets := targets[key := (if key in targets then targets[key] else {}) + {path}];
          }
        }
        assert folders[i].aliases - {} == folders[i].aliases;
        assert folders[..i + 1] == folders[..i] + [Series(path, folders[i].aliases)];
      }
      assert folders[..|folders|] == folders;
    }

    /** The two maps of `build_registry`: keys with one folder, and keys with several. */
    static method SplitTargets(targets: map<string, set<string>>)
      returns (sole: map<string, string>, conflicts: map<string, set<string>>)
      requires forall key | key in targets :: key != "" && targets[key] != {}
      ensures forall key | key in targets :: IndexedAs(key, targets[key], sole, conflicts)
      ensures sole.Keys <= targets.Keys && conflicts.Keys <= targets.Keys
    {
      sole, conflicts := map[], map[];
      var rest := targets.Keys;
      while rest != {}
        invariant rest <= targets.Keys
        invariant forall key | key in targets.Keys - rest :: IndexedAs(key, targets[key], sole, conflicts)
        invariant sole.Keys <= targets.Keys - rest && conflicts.Keys <= targets.Keys - rest
      {
        var key :| key in rest;
        rest := rest - {key};
        var paths := targets[key];
        if |paths| == 1 {
          var path :| path in paths;
          OnlyElement(paths, path);
          sole := sole[key := path];
        } else {
          SeveralElements(paths);
          conflicts := conflicts[key := paths];
        }
      }
    }

    /** `build_registry` from the folders and the aliases found for each. */
    constructor (names: Names, folders: seq<Series>)
      ensures Valid() && series == folders && this.names == names
    {
      var targets := Targets(names, folders);
      var sole, conflicts := SplitTargets(targets);
      this.names, series, this.sole, this.conflicts := names, folders, sole, conflicts;
      forall key ensures IndexedAs(key, Claimants(names, folders, key), sole, conflicts) {
        assert key in targets ==> IndexedAs(key, targets[key], sole, conflicts);
      }
    }

    /** One alias of `register`: the folder becomes a claimant of the key. */
    method Claim(key: string, path: string, ghost claimants: set<string>)
      requires key != "" && IndexedAs(key, claimants, sole, conflicts)
      modifies this`sole, this`conflicts
      ensures IndexedAs(key, claimants + {path}, sole, conflicts)
      ensures sole - {key} == old(sole) - {key} && conflicts - {key} == old(conflicts) - {key}
    {
      var candidates := if key in conflicts then conflicts[key] else {};
      if key in sole && sole[key] != path {
        candidates := candidates + {sole[key], path};
        TwoElements(sole[key], path);
        sole := sole - {key};
      } else if candidates != {} {
        candidates := candidates + {path};
        MoreElements(claimants, path);
      } else {
        sole := sole[key := path];
      }
      if candidates != {} {
        conflicts := conflicts[key := candidates];
      }
    }

    /** `register` */
    method Register(canonical: string, aliases: set<string>)
      requires Valid()
      modifies this
      ensures Valid()
      ensures series == Recorded(old(series), names.safe(canonical),
        {names.safe(canonical)} + set a | a in aliases && names.strip(a) != "" :: names.strip(a))
    {
      var path := names.safe(canonical);
      var values := {path} + set a | a in aliases && names.strip(a) != "" :: names.strip(a);
      ghost var before := series;
      var j := 0;
      while j < |series| && series[j].path != path
        invariant j <= |series| && forall i | 0 <= i < j :: series[i].path != path
      {
        j := j + 1;
      }
      RecordedAt(series, path, values, j);
      var known := values;
      if j < |series| {
        known := series[j].aliases + values;
        series := series[j := Series(path, known)];
      } else {
        series := series + [Series(path, known)];
      }
      ClaimAll(before, path, known);
      forall key ensures Added(names, before, path, known, key) == Claimants(names, series, key) {
        RecordedClaims(names, before, path, values, key);
        if j < |before| && GoesBy(names, before[j].aliases, key) {
          OwnKeysClaimed(names, before, j, key);
        }
      }
    }

    /** One turn of the loop of `register`: the folder goes by one more name. */
    method ClaimAlias(ghost before: seq<Series>, path: string, ghost done: set<string>, value: string)
      requires forall key :: IndexedAs(key, Added(names, before, path, done, key), sole, conflicts)
      modifies this`sole, this`conflicts
      ensures forall key :: IndexedAs(key, Added(names, before, path, done + {value}, key), sole, conflicts)
    {
      var key := names.key(value);
      ghost var had := Added(names, before, path, done, key);
      ghost var wasSole, wereConflicts := sole, conflicts;
      assert IndexedAs(key, had, sole, conflicts);
      if key != "" {
        Claim(key, path, had);
      }
      AllClaimed(names, before, path, done, value, wasSole, wereConflicts, sole, conflicts);
    }

    /** The loop of `register` over the names of a folder, in any order. */
    method ClaimAll(ghost before: seq<Series>, path: string, known: set<string>)
      requires Indexed(names, before, sole, conflicts)
      modifies this`sole, this`conflicts
      ensures forall key :: IndexedAs(key, Added(names, before, path, known, key), sole, conflicts)
    {
      var rest := known;
      ghost var done: set<string> := {};
      while rest != {}
        invariant done == known - rest && rest <= known
        invariant forall key :: IndexedAs(key, Added(names, before, path, done, key), sole, conflicts)
      {
        var value :| value in rest;
        rest := rest - {value};
        ClaimAlias(before, path, done, value);
        done := done + {value};
      }
      assert done == known;
    }

    /** The exact part of `resolve_from_registry`: a folder is returned exactly when it is the sole claimant. */
    method ResolveExact(title: string) returns (m: Match)
      requires Valid()
      ensures var claimants := Claimants(names, series, names.key(title));
        && (forall path :: m == Exact(path) <==> names.key(title) != "" && claimants == {path})
        && (m.Ambiguous? <==> names.key(title) != "" && |claimants| > 1)
        && (m.Ambiguous? ==> m.candidates == claimants)
    {
      var key := names.key(title);
      IndexedAt(names, series, sole, conflicts, key);
      if key in conflicts {
        return Ambiguous(conflicts[key]);
      }
      if key in sole {
        return Exact(sole[key]);
      }
      return NotExact;
    }
  }

  /** After any sequence of `register` calls on a built registry, the maps are those of a registry built from the series
      it then lists. */
  method RegisterThenRebuild(names: Names, folders: seq<Series>, calls: seq<(string, set<string>)>)
    returns (grown: Registry, rebuilt: Registry)
    ensures grown.Valid() && grown.series == rebuilt.series
    ensures grown.sole == rebuilt.sole && grown.conflicts == rebuilt.conflicts && grown.sole.Keys !! grown.conflicts.Keys
  {
    grown := new Registry(names, folders);
    for i := 0 to |calls|
      invariant fresh(grown) && grown.Valid() && grown.names == names
    {
      grown.Register(calls[i].0, calls[i].1);
    }
    rebuilt := new Registry(names, grown.series);
    IndexIsDetermined(names, grown.series, rebuilt.series, grown.sole, grown.conflicts, rebuilt.sole, rebuilt.conflicts);
  }

  // ------------------------------------------------------------ helpers

  /** Each claimed key has its claimants, and only claimed keys are there. */
  ghost predicate HoldsTargets(n: Names, folders: seq<Series>, targets: map<string, set<string>>) {
    forall key ::
      && (key in targets <==> key != "" && Claimants(n, folders, key) != {})
      && (key in targets ==> targets[key] == Claimants(n, folders, key))
  }

  /** The claimants of a key once the folder goes by `done` too. */
  function Added(n: Names, series: seq<Series>, path: string, done: set<string>, key: string): set<string> {
    Claimants(n, series, key) + if GoesBy(n, done, key) then {path} else {}
  }

  lemma OthersKeep(key: string, sole: map<string, string>, conflicts: map<string, set<string>>,
                   sole': map<string, string>, conflicts': map<string, set<string>>, k: string, claimants: set<string>)
    requires k != key && sole - {key} == sole' - {key} && conflicts - {key} == conflicts' - {key}
    requires IndexedAs(k, claimants, sole, conflicts)
    ensures IndexedAs(k, claimants, sole', conflicts')
  {
    assert k in sole <==> k in sole - {key};
    assert k in sole' <==> k in sole' - {key};
    assert k in conflicts <==> k in conflicts - {key};
    assert k in conflicts' <==> k in conflicts' - {key};
    assert k in sole ==> sole[k] == (sole - {key})[k] == (sole' - {key})[k];
    assert k in conflicts ==> conflicts[k] == (conflicts - {key})[k] == (conflicts' - {key})[k];
  }

  lemma AllClaimed(n: Names, series: seq<Series>, path: string, done: set<string>, value: string,
                   sole: map<string, string>, conflicts: map<string, set<string>>,
                   sole': map<string, string>, conflicts': map<string, set<string>>)
    requires forall key :: IndexedAs(key, Added(n, series, path, done, key), sole, conflicts)
    requires sole - {n.key(value)} == sole' - {n.key(value)} && conflicts - {n.key(value)} == conflicts' - {n.key(value)}
    requires n.key(value) == "" ==> sole == sole' && conflicts == conflicts'
    requires n.key(value) != "" ==>
      IndexedAs(n.key(value), Added(n, series, path, done, n.key(value)) + {path}, sole', conflicts')
    ensures forall key :: IndexedAs(key, Added(n, series, path, done + {value}, key), sole', conflicts')
  {
    forall key ensures IndexedAs(key, Added(n, series, path, done + {value}, key), sole', conflicts') {
      AddedOne(n, series, path, done, value, key);
      assert IndexedAs(key, Added(n, series, path, done, key), sole, conflicts);
      if key != n.key(value) {
        OthersKeep(n.key(value), sole, conflicts, sole', conflicts', key, Added(n, series, path, done, key));
      }
    }
  }

  lemma AddedOne(n: Names, series: seq<Series>, path: string, done: set<string>, value: string, key: string)
    ensures Added(n, series, path, done + {value}, key)
      == Added(n, series, path, done, key) + (if key == n.key(value) then {path} else {})
  {
  }

  lemma NoAliases(n: Names, folders: seq<Series>, path: string, targets: map<string, set<string>>)
    requires HoldsTargets(n, folders, targets)
    ensures forall aliases | aliases == {} :: HoldsTargets(n, folders + [Series(path, aliases)], targets)
  {
    forall key ensures Claimants(n, folders + [Series(path, {})], key) == Claimants(n, folders, key) {
      ClaimantsAppend(n, folders, [Series(path, {})], key);
      ClaimantsOfOne(n, Series(path, {}), key);
    }
  }

  lemma OneAliasMore(n: Names, folders: seq<Series>, path: string, aliases: set<string>, alias: string,
                     targets: map<string, set<string>>)
    requires HoldsTargets(n, folders + [Series(path, aliases)], targets)
    ensures var key := n.key(alias);
      HoldsTargets(n, folders + [Series(path, aliases + {alias})],
        if key == "" then targets else targets[key := (if key in targets then targets[key] else {}) + {path}])
  {
    var one, more := Series(path, aliases), Series(path, aliases + {alias});
    forall k ensures Claimants(n, folders + [more], k)
      == Claimants(n, folders + [one], k) + (if k == n.key(alias) then {path} else {})
    {
      ClaimantsAppend(n, folders, [one], k);
      ClaimantsAppend(n, folders, [more], k);
      ClaimantsOfOne(n, one, k);
      ClaimantsOfOne(n, more, k);
      assert GoesBy(n, aliases + {alias}, k) <==> GoesBy(n, aliases, k) || k == n.key(alias);
    }
  }

  lemma OnlyElement(s: set<string>, x: string)
    requires x in s && |s| == 1
    ensures s == {x}
  {
    assert |s - {x}| == 0;
    assert s == (s - {x}) + {x};
  }

  lemma SeveralElements(s: set<string>)
    requires s != {} && |s| != 1
    ensures |s| > 1
  {
  }

  lemma TwoElements(x: string, y: string)
    requires x != y
    ensures |{x, y}| == 2
  {
  }

  lemma MoreElements(s: set<string>, x: string)
    ensures |s + {x}| >= |s|
  {
    if x in s {
      assert s + {x} == s;
    }
  }
}
