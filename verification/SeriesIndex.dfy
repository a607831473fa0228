/**
 The index of existing series folders: `SeriesIndex` in scripts/cbz_routing.py. What it answers depends on which
 directories were observed, never on the order or the number of times they were added.
 */
module SeriesIndex {
  import opened Outcomes
  import opened Ordering

  /** One observed series directory. */
  datatype Entry = Entry(destination: string, path: string)

  datatype Observation = Observation(series: string, entry: Entry)

  /** Text and path functions: the lexical identity and last component of a path, case folding, the series
      key; `ignored` is NON_SERIES_DIRECTORIES. */
  datatype Names = Names(
    identity: string -> string,
    last: string -> string,
    fold: string -> string,
    key: string -> string,
    ignored: set<string>)

  // ------------------------------------------------------------ the order of entries

  /** `_rank` */
  function Rank(priority: seq<string>, destination: string): (r: nat)
    ensures r <= |priority| && (r < |priority| ==> priority[r] == destination) && destination !in priority[..r]
  {
    if priority == [] || priority[0] == destination then 0 else
    var r := Rank(priority[1..], destination) + 1;
    assert priority[..r] == [priority[0]] + priority[1..][..r - 1];
    r
  }

  /** `_entry_order(a) < _entry_order(b)` */
  predicate Before(n: Names, priority: seq<string>, a: Entry, b: Entry) {
    var ra, rb := Rank(priority, a.destination), Rank(priority, b.destination);
    if ra != rb then ra < rb
    else if a.destination != b.destination then Less(a.destination, b.destination)
    else if n.fold(a.path) != n.fold(b.path) then Less(n.fold(a.path), n.fold(b.path))
    else Less(a.path, b.path)
  }

  /** Entries are in the order of their destinations in the priority list, those that are not in it last; then by the
      destination, the path up to case and the path. */
  lemma OrderOfEntries(n: Names, priority: seq<string>, a: Entry, b: Entry, i: nat)
    ensures i < |priority| && a.destination == priority[i] && b.destination !in priority[..i + 1] ==>
      Before(n, priority, a, b) && !Before(n, priority, b, a)
    ensures a.destination !in priority && b.destination !in priority && Less(a.destination, b.destination) ==>
      Before(n, priority, a, b) && !Before(n, priority, b, a)
    ensures a.destination == b.destination && Less(n.fold(a.path), n.fold(b.path)) ==>
      Before(n, priority, a, b) && !Before(n, priority, b, a)
    ensures a.destination == b.destination && n.fold(a.path) == n.fold(b.path) ==>
      (Before(n, priority, a, b) <==> Less(a.path, b.path))
  {
    LessTotal(a.destination, b.destination);
    LessTotal(n.fold(a.path), n.fold(b.path));
    if i < |priority| {
      RankUpTo(priority, a.destination, i);
      RankUpTo(priority, b.destination, i);
    }
  }

  lemma {:induction false} RankUpTo(priority: seq<string>, destination: string, i: nat)
    requires i < |priority|
    ensures priority[i] == destination ==> Rank(priority, destination) <= i
    ensures destination !in priority[..i + 1] ==> Rank(priority, destination) > i
  {
    assert priority[0] in priority[..i + 1];
    if i > 0 {
      RankUpTo(priority[1..], destination, i - 1);
      assert priority[..i + 1] == [priority[0]] + priority[1..][..i];
    }
  }

  function EntryOrder(n: Names, priority: seq<string>): (Entry, Entry) -> bool {
    (a, b) => Before(n, priority, a, b)
  }

  lemma BeforeTransitive(n: Names, priority: seq<string>, a: Entry, b: Entry, c: Entry)
    requires Before(n, priority, a, b) && Before(n, priority, b, c)
    ensures Before(n, priority, a, c)
  {
    LessIsStrictOrder();
  }

  lemma EntryOrderIsStrict(n: Names, priority: seq<string>)
    ensures StrictOrder(EntryOrder(n, priority))
  {
    var less := EntryOrder(n, priority);
    forall a, b, c | less(a, b) && less(b, c) ensures less(a, c) {
      BeforeTransitive(n, priority, a, b, c);
    }
    LessIsStrictOrder();
  }

  // ------------------------------------------------------------ what observations mean

  /** Where an observation belongs. */
  datatype Bucket = Excluded | EmptyKey | Series(key: string)

  predicate IsExcluded(n: Names, path: string) {
    n.fold(n.last(path)) in n.ignored
  }

  function BucketOf(n: Names, o: Observation): Bucket {
    if IsExcluded(n, o.entry.path) then Excluded
    else if n.key(o.series) == "" then EmptyKey
    else Series(n.key(o.series))
  }

  predicate SamePath(n: Names, o: Observation, b: Bucket, id: string) {
    BucketOf(n, o) == b && n.identity(o.entry.path) == id
  }

  /** The first, in entry order, of the observations of one path in one bucket. */
  ghost predicate IsBest(n: Names, priority: seq<string>, seen: set<Observation>, b: Bucket, id: string, e: Entry) {
    && (exists o | o in seen :: SamePath(n, o, b, id) && o.entry == e)
    && forall o | o in seen && SamePath(n, o, b, id) :: o.entry == e || Before(n, priority, e, o.entry)
  }

  /** The best observation of every path of a bucket. */
  ghost function BestOf(n: Names, priority: seq<string>, seen: set<Observation>, b: Bucket): set<Entry> {
    set o | o in seen && BucketOf(n, o) == b
      && IsBest(n, priority, seen, b, n.identity(o.entry.path), o.entry) :: o.entry
  }

  /** The dictionary holds the best observation of every path of the bucket. */
  ghost predicate Remembers(n: Names, priority: seq<string>, seen: set<Observation>, b: Bucket, m: map<string, Entry>) {
    && (forall o | o in seen && BucketOf(n, o) == b :: n.identity(o.entry.path) in m)
    && forall id {:trigger IsBest(n, priority, seen, b, id, m[id])} | id in m :: IsBest(n, priority, seen, b, id, m[id])
  }

  lemma BestIsUnique(n: Names, priority: seq<string>, seen: set<Observation>, b: Bucket, id: string, d: Entry, e: Entry)
    requires IsBest(n, priority, seen, b, id, d) && IsBest(n, priority, seen, b, id, e)
    ensures d == e
  {
    EntryOrderIsStrict(n, priority);
    var less := EntryOrder(n, priority);
    assert d == e || less(d, e);
    assert d == e || less(e, d);
  }

  /** The dictionary of a bucket is determined by what was seen. */
  lemma RememberedIsUnique(n: Names, priority: seq<string>, seen: set<Observation>, b: Bucket,
                           m: map<string, Entry>, m': map<string, Entry>)
    requires Remembers(n, priority, seen, b, m) && Remembers(n, priority, seen, b, m')
    ensures m == m'
  {
    forall id | id in m ensures id in m' {
      assert IsBest(n, priority, seen, b, id, m[id]);
    }
    forall id | id in m' ensures id in m {
      assert IsBest(n, priority, seen, b, id, m'[id]);
    }
    forall id | id in m ensures m[id] == m'[id] {
      assert IsBest(n, priority, seen, b, id, m'[id]);
      BestIsUnique(n, priority, seen, b, id, m[id], m'[id]);
    }
  }

  /** The entries of the dictionary are the best observations. */
  lemma RememberedValues(n: Names, priority: seq<string>, seen: set<Observation>, b: Bucket, m: map<string, Entry>)
    requires Remembers(n, priority, seen, b, m)
    ensures m.Values == BestOf(n, priority, seen, b)
    ensures |m| == |m.Values|
  {
    var best := BestOf(n, priority, seen, b);
    forall e | e in m.Values ensures e in best {
      var id :| id in m && m[id] == e;
      assert IsBest(n, priority, seen, b, id, m[id]);
      var o :| o in seen && SamePath(n, o, b, id) && o.entry == e;
    }
    forall e | e in best ensures e in m.Values {
      var o :| o in seen && BucketOf(n, o) == b && o.entry == e
        && IsBest(n, priority, seen, b, n.identity(o.entry.path), o.entry);
      var id := n.identity(e.path);
      assert IsBest(n, priority, seen, b, id, m[id]);
      BestIsUnique(n, priority, seen, b, id, m[id], e);
      assert m[id] == e;
    }
    forall i, j | i in m && j in m && m[i] == m[j] ensures i == j {
      assert IsBest(n, priority, seen, b, i, m[i]) && IsBest(n, priority, seen, b, j, m[j]);
    }
    ValuesSize(m);
  }

  lemma {:induction false} ValuesSize(m: map<string, Entry>)
    requires forall i, j | i in m && j in m && m[i] == m[j] :: i == j
    ensures |m.Values| == |m|
    decreases |m|
  {
    if m != map[] {
      var i :| i in m;
      var rest := m - {i};
      ValuesSize(rest);
      assert m.Values == rest.Values + {m[i]} by {
        forall v | v in m.Values ensures v in rest.Values + {m[i]} {
          var j :| j in m && m[j] == v;
          if j != i { assert rest[j] == v; }
        }
      }
      assert m[i] !in rest.Values;
    }
  }

  lemma NewcomerOrOld(n: Names, priority: seq<string>, seen: set<Observation>, b: Bucket, m: map<string, Entry>,
                      o: Observation)
    requires Remembers(n, priority, seen, b, m) && BucketOf(n, o) == b
    ensures var id := n.identity(o.entry.path);
      Remembers(n, priority, seen + {o}, b,
        if id !in m || Before(n, priority, o.entry, m[id]) then m[id := o.entry] else m)
  {
    EntryOrderIsStrict(n, priority);
    var less := EntryOrder(n, priority);
    var id := n.identity(o.entry.path);
    var after := if id !in m || less(o.entry, m[id]) then m[id := o.entry] else m;
    forall i | i in after ensures IsBest(n, priority, seen + {o}, b, i, after[i]) {
      assert i in m ==> IsBest(n, priority, seen, b, i, m[i]);
      if i == id && after[i] == o.entry {
        assert SamePath(n, o, b, i) && o in seen + {o};
        forall p | p in seen && SamePath(n, p, b, i) ensures p.entry == o.entry || less(o.entry, p.entry) {
          if id in m && less(o.entry, m[id]) && m[id] != p.entry {
            assert less(m[id], p.entry);
          }
        }
      } else {
        var p :| p in seen && SamePath(n, p, b, i) && p.entry == m[i];
        assert p in seen + {o};
      }
    }
  }

  lemma OtherBucket(n: Names, priority: seq<string>, seen: set<Observation>, b: Bucket, m: map<string, Entry>,
                    o: Observation)
    requires Remembers(n, priority, seen, b, m) && BucketOf(n, o) != b
    ensures Remembers(n, priority, seen + {o}, b, m)
  {
    forall i | i in m ensures IsBest(n, priority, seen + {o}, b, i, m[i]) {
      assert IsBest(n, priority, seen, b, i, m[i]);
      var p :| p in seen && SamePath(n, p, b, i) && p.entry == m[i];
      assert p in seen + {o};
    }
  }

  /** An observation of another bucket does not change what is known of this one. */
  lemma OtherBucketSame(n: Names, priority: seq<string>, seen: set<Observation>, b: Bucket, o: Observation)
    requires BucketOf(n, o) != b
    ensures BestOf(n, priority, seen + {o}, b) == BestOf(n, priority, seen, b)
  {
    forall id, e ensures IsBest(n, priority, seen + {o}, b, id, e) <==> IsBest(n, priority, seen, b, id, e) {
      if p :| p in seen && SamePath(n, p, b, id) && p.entry == e {
        assert p in seen + {o};
      }
    }
  }

  // ------------------------------------------------------------ the index

  ghost predicate WasSeen(n: Names, seen: set<Observation>, key: string) {
    exists o | o in seen :: BucketOf(n, o) == Series(key)
  }

  /** The key was seen, and its dictionary holds the bucket of the key. */
  ghost predicate Kept(n: Names, priority: seq<string>, seen: set<Observation>, key: string, m: map<string, Entry>) {
    WasSeen(n, seen, key) && Remembers(n, priority, seen, Series(key), m)
  }

  ghost predicate AllKept(n: Names, priority: seq<string>, seen: set<Observation>, entries: map<string, map<string, Entry>>) {
    forall k {:trigger Kept(n, priority, seen, k, entries[k])} | k in entries :: Kept(n, priority, seen, k, entries[k])
  }

  ghost predicate KeysKept(n: Names, seen: set<Observation>, keys: set<string>) {
    forall o | o in seen && BucketOf(n, o).Series? :: BucketOf(n, o).key in keys
  }

  /** The dictionary of every key is the bucket of that key, and no key is there without an observation. */
  ghost predicate RemembersAll(n: Names, priority: seq<string>, seen: set<Observation>,
                               entries: map<string, map<string, Entry>>) {
    KeysKept(n, seen, entries.Keys) && AllKept(n, priority, seen, entries)
  }

  /** `entries.get(key, {})` */
  function DictionaryOf(entries: map<string, map<string, Entry>>, key: string): map<string, Entry> {
    if key in entries then entries[key] else map[]
  }

  lemma DictionaryRemembers(n: Names, priority: seq<string>, seen: set<Observation>,
                            entries: map<string, map<string, Entry>>, key: string)
    requires RemembersAll(n, priority, seen, entries)
    ensures Remembers(n, priority, seen, Series(key), DictionaryOf(entries, key))
  {
    if key in entries {
      assert Kept(n, priority, seen, key, entries[key]);
    }
  }

  lemma KeysStay(n: Names, seen: set<Observation>, keys: set<string>, o: Observation, key: string)
    requires KeysKept(n, seen, keys) && (BucketOf(n, o).Series? ==> BucketOf(n, o).key == key)
    ensures KeysKept(n, seen + {o}, keys + {key})
  {
  }

  /** Keys other than that of the observation keep their dictionaries. */
  lemma OthersStay(n: Names, priority: seq<string>, seen: set<Observation>, entries: map<string, map<string, Entry>>,
                   o: Observation, k: string)
    requires AllKept(n, priority, seen, entries) && k in entries && BucketOf(n, o) != Series(k)
    ensures Kept(n, priority, seen + {o}, k, entries[k])
  {
    assert Kept(n, priority, seen, k, entries[k]);
    var p :| p in seen && BucketOf(n, p) == Series(k);
    assert p in seen + {o};
    OtherBucket(n, priority, seen, Series(k), entries[k], o);
  }

  lemma AllStay(n: Names, priority: seq<string>, seen: set<Observation>, entries: map<string, map<string, Entry>>,
                o: Observation, key: string, changed: map<string, Entry>)
    requires AllKept(n, priority, seen, entries) && BucketOf(n, o) == Series(key)
    requires Kept(n, priority, seen + {o}, key, changed)
    ensures AllKept(n, priority, seen + {o}, entries[key := changed])
  {
    var more := entries[key := changed];
    forall k | k in more ensures Kept(n, priority, seen + {o}, k, more[k]) {
      if k != key {
        OthersStay(n, priority, seen, entries, o, k);
      }
    }
  }

  lemma RememberSeries(n: Names, priority: seq<string>, seen: set<Observation>, entries: map<string, map<string, Entry>>,
                       o: Observation, changed: map<string, Entry>)
    requires RemembersAll(n, priority, seen, entries) && BucketOf(n, o).Series?
    requires Remembers(n, priority, seen + {o}, BucketOf(n, o), changed)
    ensures RemembersAll(n, priority, seen + {o}, entries[BucketOf(n, o).key := changed])
  {
    var key := BucketOf(n, o).key;
    assert o in seen + {o};
    KeysStay(n, seen, entries.Keys, o, key);
    assert entries[key := changed].Keys == entries.Keys + {key};
    AllStay(n, priority, seen, entries, o, key, changed);
  }

  lemma RememberNoSeries(n: Names, priority: seq<string>, seen: set<Observation>, entries: map<string, map<string, Entry>>,
                         o: Observation)
    requires RemembersAll(n, priority, seen, entries) && !BucketOf(n, o).Series?
    ensures RemembersAll(n, priority, seen + {o}, entries)
  {
    forall k | k in entries ensures Kept(n, priority, seen + {o}, k, entries[k]) {
      OthersStay(n, priority, seen, entries, o, k);
    }
  }

  /** The three dictionaries hold what was seen. */
  ghost predicate Holds(n: Names, priority: seq<string>, seen: set<Observation>, entries: map<string, map<string, Entry>>,
                        emptyKeys: map<string, Entry>, excluded: map<string, Entry>) {
    && RemembersAll(n, priority, seen, entries)
    && Remembers(n, priority, seen, EmptyKey, emptyKeys)
    && Remembers(n, priority, seen, Excluded, excluded)
  }

  /** A change to the dictionary of an observation's own bucket is all it takes to hold that observation too. */
  lemma HoldsOneMore(n: Names, priority: seq<string>, seen: set<Observation>, entries: map<string, map<string, Entry>>,
                     emptyKeys: map<string, Entry>, excluded: map<string, Entry>, o: Observation,
                     changed: map<string, Entry>)
    requires Holds(n, priority, seen, entries, emptyKeys, excluded)
    requires Remembers(n, priority, seen + {o}, BucketOf(n, o), changed)
    ensures match BucketOf(n, o)
      case Excluded => Holds(n, priority, seen + {o}, entries, emptyKeys, changed)
      case EmptyKey => Holds(n, priority, seen + {o}, entries, changed, excluded)
      case Series(key) => Holds(n, priority, seen + {o}, entries[key := changed], emptyKeys, excluded)
  {
    if !BucketOf(n, o).Excluded? {
      OtherBucket(n, priority, seen, Excluded, excluded, o);
    }
    if !BucketOf(n, o).EmptyKey? {
      OtherBucket(n, priority, seen, EmptyKey, emptyKeys, o);
    }
    if BucketOf(n, o).Series? {
      RememberSeries(n, priority, seen, entries, o, changed);
    } else {
      RememberNoSeries(n, priority, seen, entries, o);
    }
  }

  lemma RememberedAllIsUnique(n: Names, priority: seq<string>, seen: set<Observation>,
                              a: map<string, map<string, Entry>>, b: map<string, map<string, Entry>>)
    requires RemembersAll(n, priority, seen, a) && RemembersAll(n, priority, seen, b)
    ensures a == b
  {
    forall k | k in a ensures k in b && a[k] == b[k] {
      assert Kept(n, priority, seen, k, a[k]);
      var o :| o in seen && BucketOf(n, o) == Series(k);
      assert Kept(n, priority, seen, k, b[k]);
      RememberedIsUnique(n, priority, seen, Series(k), a[k], b[k]);
    }
    forall k | k in b ensures k in a {
      assert Kept(n, priority, seen, k, b[k]);
      var o :| o in seen && BucketOf(n, o) == Series(k);
    }
  }

  datatype Collision = Collision(key: string, entries: seq<Entry>)

  class Index {
    const names: Names
    const priority: seq<string>
    var entries: map<string, map<string, Entry>>
    var emptyKeys: map<string, Entry>
    var excluded: map<string, Entry>
    ghost var seen: set<Observation>

    ghost predicate Valid()
      reads this
    {
      Holds(names, priority, seen, entries, emptyKeys, excluded)
    }

    constructor (names: Names, priority: seq<string>)
      ensures Valid() && seen == {} && this.names == names && this.priority == priority
    {
      this.names, this.priority := names, priority;
      entries, emptyKeys, excluded, seen := map[], map[], map[], {};
    }

    /** `_remember` on one dictionary. */
    method Remember(m: map<string, Entry>, o: Observation) returns (changed: map<string, Entry>)
      requires Remembers(names, priority, seen, BucketOf(names, o), m)
      ensures Remembers(names, priority, seen + {o}, BucketOf(names, o), changed)
      ensures changed.Keys == m.Keys + {names.identity(o.entry.path)}
    {
      NewcomerOrOld(names, priority, seen, BucketOf(names, o), m, o);
      var identity := names.identity(o.entry.path);
      if identity !in m || Before(names, priority, o.entry, m[identity]) {
        changed := m[identity := o.entry];
      } else {
        changed := m;
      }
    }

    /** `add` */
    method Add(series: string, destination: string, path: string)
      requires Valid()
      modifies this
      ensures Valid() && seen == old(seen) + {Observation(series, Entry(destination, path))}
      // A folder with an ignored name is filed apart, and so is one without a key.
      ensures names.fold(names.last(path)) in names.ignored ==>
        entries == old(entries) && emptyKeys == old(emptyKeys) && names.identity(path) in excluded
      ensures names.fold(names.last(path)) !in names.ignored ==> excluded == old(excluded)
      ensures names.fold(names.last(path)) !in names.ignored && names.key(series) == "" ==>
        entries == old(entries) && names.identity(path) in emptyKeys
      ensures names.fold(names.last(path)) !in names.ignored && names.key(series) != "" ==> (
        && emptyKeys == old(emptyKeys) && entries - {names.key(series)} == old(entries) - {names.key(series)}
        && names.identity(path) in DictionaryOf(entries, names.key(series)))
    {
      var o := Observation(series, Entry(destination, path));
      var key := names.key(series);
      var changed;
      if IsExcluded(names, path) {
        changed := Remember(excluded, o);
        HoldsOneMore(names, priority, seen, entries, emptyKeys, excluded, o, changed);
        excluded := changed;
      } else if key == "" {
        changed := Remember(emptyKeys, o);
        HoldsOneMore(names, priority, seen, entries, emptyKeys, excluded, o, changed);
        emptyKeys := changed;
      } else {
        DictionaryRemembers(names, priority, seen, entries, key);
        changed := Remember(DictionaryOf(entries, key), o);
        HoldsOneMore(names, priority, seen, entries, emptyKeys, excluded, o, changed);
        entries := entries[key := changed];
      }
      seen := seen + {o};
    }

    /** A run of `add` calls. */
    method AddAll(observations: seq<Observation>)
      requires Valid()
      modifies this
      ensures Valid() && seen == old(seen) + Elements(observations)
    {
      for i := 0 to |observations|
        invariant Valid() && seen == old(seen) + Elements(observations[..i])
      {
        var o := observations[i];
        ElementsAppend(observations[..i], o);
        assert observations[..i + 1] == observations[..i] + [o];
        Add(o.series, o.entry.destination, o.entry.path);
      }
      assert observations[..|observations|] == observations;
    }

    /** The entries of one dictionary in entry order. */
    method Listed(m: map<string, Entry>, ghost b: Bucket) returns (es: seq<Entry>)
      requires Remembers(names, priority, seen, b, m)
      ensures Ascending(EntryOrder(names, priority), es) && Elements(es) == BestOf(names, priority, seen, b)
      ensures |es| == |m|
    {
      EntryOrderIsStrict(names, priority);
      RememberedValues(names, priority, seen, b, m);
      es := Sort(EntryOrder(names, priority), m.Values);
    }

    /** `locations`: the best observation of every path under the key of the name, by priority. */
    method Locations(series: string) returns (es: seq<Entry>)
      requires Valid()
      ensures Ascending(EntryOrder(names, priority), es)
      ensures Elements(es) == BestOf(names, priority, seen, Series(names.key(series)))
    {
      var key := names.key(series);
      DictionaryRemembers(names, priority, seen, entries, key);
      es := Listed(DictionaryOf(entries, key), Series(key));
    }

    /** `lookup`: the first location. */
    method Lookup(series: string) returns (hit: Option<Entry>)
      requires Valid()
      ensures var best := BestOf(names, priority, seen, Series(names.key(series)));
        && (hit.None? <==> best == {})
        && (hit.Some? ==> hit.value in best)
        && forall e | e in best :: hit.Some? && (e == hit.value || Before(names, priority, hit.value, e))
    {
      var es := Locations(series);
      NoElements(es);
      hit := if es == [] then None else Some(es[0]);
      forall e | e in Elements(es) ensures hit.Some? && (e == hit.value || Before(names, priority, hit.value, e)) {
        var i :| 0 <= i < |es| && es[i] == e;
        assert i > 0 ==> EntryOrder(names, priority)(es[0], es[i]);
      }
    }

    /** A series that was seen has a location. */
    lemma SeenIsLocated(o: Observation)
      requires Valid() && o in seen && BucketOf(names, o).Series?
      ensures BestOf(names, priority, seen, BucketOf(names, o)) != {}
    {
      var key := BucketOf(names, o).key;
      DictionaryRemembers(names, priority, seen, entries, key);
      RememberedValues(names, priority, seen, Series(key), DictionaryOf(entries, key));
      assert DictionaryOf(entries, key)[names.identity(o.entry.path)] in DictionaryOf(entries, key).Values;
    }

    /** `is_ambiguous` */
    method IsAmbiguous(series: string) returns (ambiguous: bool)
      requires Valid()
      ensures ambiguous <==> |BestOf(names, priority, seen, Series(names.key(series)))| > 1
    {
      var key := names.key(series);
      var m := DictionaryOf(entries, key);
      DictionaryRemembers(names, priority, seen, entries, key);
      RememberedValues(names, priority, seen, Series(key), m);
      ambiguous := |m| > 1;
    }

    /** The three measured parts of `diagnostics`. */
    method Diagnostics() returns (collisions: seq<Collision>, empty: seq<Entry>, left: seq<Entry>)
      requires Valid()
      ensures Ascending(EntryOrder(names, priority), empty) && Ascending(EntryOrder(names, priority), left)
      ensures Elements(empty) == BestOf(names, priority, seen, EmptyKey)
      ensures Elements(left) == BestOf(names, priority, seen, Excluded)
      ensures AreCollisions(collisions)
    {
      empty := Listed(emptyKeys, EmptyKey);
      left := Listed(excluded, Excluded);
      LessIsStrictOrder();
      var keys := Sort(Less, entries.Keys);
      collisions := [];
      for i := 0 to |keys|
        invariant CollisionsAmong(collisions, keys[..i])
      {
        var key := keys[i];
        assert key in Elements(keys);
        assert Kept(names, priority, seen, key, entries[key]);
        var es := Listed(entries[key], Series(key));
        RememberedValues(names, priority, seen, Series(key), entries[key]);
        AddCollision(collisions, keys, i, es);
        if |entries[key]| > 1 {
          collisions := collisions + [Collision(key, es)];
        }
      }
      assert keys[..|keys|] == keys;
      AllCollisions(collisions, keys);
    }

    lemma AddCollision(cs: seq<Collision>, keys: seq<string>, i: nat, es: seq<Entry>)
      requires i < |keys| && Ascending(Less, keys) && CollisionsAmong(cs, keys[..i])
      requires Ascending(EntryOrder(names, priority), es)
      requires Elements(es) == BestOf(names, priority, seen, Series(keys[i]))
      ensures CollisionsAmong(if |BestOf(names, priority, seen, Series(keys[i]))| > 1 then cs + [Collision(keys[i], es)]
                              else cs, keys[..i + 1])
    {
      var several := |BestOf(names, priority, seen, Series(keys[i]))| > 1;
      var more := if several then cs + [Collision(keys[i], es)] else cs;
      assert keys[..i + 1] == keys[..i] + [keys[i]];
      forall a, b | 0 <= a < b < |more| ensures Less(more[a].key, more[b].key) {
        assert more[a] in cs;
        if b == |cs| {
          var k :| 0 <= k < i && keys[k] == more[a].key;
        }
      }
      forall k | k in keys[..i + 1] && |BestOf(names, priority, seen, Series(k))| > 1
        ensures exists c | c in more :: c.key == k
      {
        if k == keys[i] {
          assert Collision(k, es) in more;
        } else {
          var c :| c in cs && c.key == k;
          assert c in more;
        }
      }
    }

    lemma AllCollisions(cs: seq<Collision>, keys: seq<string>)
      requires Valid() && Elements(keys) == entries.Keys && CollisionsAmong(cs, keys)
      ensures AreCollisions(cs)
    {
      forall k | |BestOf(names, priority, seen, Series(k))| > 1 ensures exists c | c in cs :: c.key == k {
        if k !in entries {
          RememberedValues(names, priority, seen, Series(k), map[]);
        }
        assert k in Elements(keys);
      }
    }

    ghost predicate IsCollision(c: Collision)
      reads this
    {
      && |BestOf(names, priority, seen, Series(c.key))| > 1
      && Ascending(EntryOrder(names, priority), c.entries)
      && Elements(c.entries) == BestOf(names, priority, seen, Series(c.key))
    }

    ghost predicate CollisionsAmong(cs: seq<Collision>, keys: seq<string>)
      reads this
    {
      && (forall c | c in cs :: c.key in keys && IsCollision(c))
      && (forall i, j | 0 <= i < j < |cs| :: Less(cs[i].key, cs[j].key))
      && forall k | k in keys && |BestOf(names, priority, seen, Series(k))| > 1 :: exists c | c in cs :: c.key == k
    }

    /** By ascending key, exactly the keys with several paths, each with its paths. */
    ghost predicate AreCollisions(cs: seq<Collision>)
      reads this
    {
      && (forall c | c in cs :: IsCollision(c))
      && (forall i, j | 0 <= i < j < |cs| :: Less(cs[i].key, cs[j].key))
      && forall k | |BestOf(names, priority, seen, Series(k))| > 1 :: exists c | c in cs :: c.key == k
    }
  }

  /** Two indexes that saw the same directories, in any order and any number of times, hold the same and so answer the
      same. */
  lemma OrderDoesNotMatter(a: Index, b: Index)
    requires a.Valid() && b.Valid() && a.names == b.names && a.priority == b.priority && a.seen == b.seen
    ensures a.entries == b.entries && a.emptyKeys == b.emptyKeys && a.excluded == b.excluded
  {
    RememberedAllIsUnique(a.names, a.priority, a.seen, a.entries, b.entries);
    RememberedIsUnique(a.names, a.priority, a.seen, EmptyKey, a.emptyKeys, b.emptyKeys);
    RememberedIsUnique(a.names, a.priority, a.seen, Excluded, a.excluded, b.excluded);
  }

  /** Collisions with the same keys, each with the same entries in entry order. */
  lemma SameCollisions(a: Index, b: Index, cs: seq<Collision>, ds: seq<Collision>)
    requires a.names == b.names && a.priority == b.priority && a.seen == b.seen
    requires a.AreCollisions(cs) && b.AreCollisions(ds)
    ensures cs == ds
  {
    LessIsStrictOrder();
    EntryOrderIsStrict(a.names, a.priority);
    var ks, ls := CollisionKeys(cs), CollisionKeys(ds);
    forall k ensures k in Elements(ks) <==> k in Elements(ls) {
      if k in ks {
        var i :| 0 <= i < |cs| && ks[i] == k;
        assert a.IsCollision(cs[i]);
        var d :| d in ds && d.key == k;
        var j :| 0 <= j < |ds| && ds[j] == d;
        assert ls[j] == k;
      }
      if k in ls {
        var i :| 0 <= i < |ds| && ls[i] == k;
        assert b.IsCollision(ds[i]);
        var c :| c in cs && c.key == k;
        var j :| 0 <= j < |cs| && cs[j] == c;
        assert ks[j] == k;
      }
    }
    AscendingUnique(Less, ks, ls);
    forall i | 0 <= i < |cs| ensures cs[i] == ds[i] {
      assert ks[i] == ls[i] && a.IsCollision(cs[i]) && b.IsCollision(ds[i]);
      AscendingUnique(EntryOrder(a.names, a.priority), cs[i].entries, ds[i].entries);
    }
  }

  function CollisionKeys(cs: seq<Collision>): (keys: seq<string>)
    ensures |keys| == |cs| && forall i | 0 <= i < |cs| :: keys[i] == cs[i].key
  {
    seq(|cs|, i requires 0 <= i < |cs| => cs[i].key)
  }

  /** Everything the index can be asked. */
  datatype Answers = Answers(
    locations: seq<Entry>,
    hit: Option<Entry>,
    ambiguous: bool,
    collisions: seq<Collision>,
    emptyKeys: seq<Entry>,
    excluded: seq<Entry>)

  /** All the questions at once, about one name. */
  method Ask(index: Index, series: string) returns (r: Answers)
    requires index.Valid()
    ensures ListedIn(index, series, r)
    ensures r.hit == if r.locations == [] then None else Some(r.locations[0])
    ensures r.ambiguous <==> |BestOf(index.names, index.priority, index.seen, Series(index.names.key(series)))| > 1
  {
    var locations := index.Locations(series);
    var hit := index.Lookup(series);
    var ambiguous := index.IsAmbiguous(series);
    var collisions, emptyKeys, excluded := index.Diagnostics();
    HitIsFirst(index, series, locations, hit);
    r := Answers(locations, hit, ambiguous, collisions, emptyKeys, excluded);
  }

  /** The listings are ascending and complete. */
  ghost predicate ListedIn(index: Index, series: string, r: Answers)
    reads index
  {
    var less := EntryOrder(index.names, index.priority);
    && Ascending(less, r.locations) && Ascending(less, r.emptyKeys) && Ascending(less, r.excluded)
    && Elements(r.locations) == BestOf(index.names, index.priority, index.seen, Series(index.names.key(series)))
    && Elements(r.emptyKeys) == BestOf(index.names, index.priority, index.seen, EmptyKey)
    && Elements(r.excluded) == BestOf(index.names, index.priority, index.seen, Excluded)
    && index.AreCollisions(r.collisions)
  }

  /** What comes before all others is the first of an ascending list. */
  lemma FirstIsLeast(less: (Entry, Entry) -> bool, es: seq<Entry>, least: Entry)
    requires StrictOrder(less) && Ascending(less, es) && least in es
    requires forall e | e in es :: e == least || less(least, e)
    ensures es[0] == least
  {
    var first := es[0];
    forall i | 0 < i < |es| ensures es[i] != least {
      assert less(first, es[i]);
      assert first == least || less(least, first);
    }
  }

  lemma HitIsFirst(index: Index, series: string, locations: seq<Entry>, hit: Option<Entry>)
    requires Ascending(EntryOrder(index.names, index.priority), locations)
    requires var best := BestOf(index.names, index.priority, index.seen, Series(index.names.key(series)));
      && Elements(locations) == best
      && (hit.None? <==> best == {})
      && (hit.Some? ==> hit.value in best)
      && forall e | e in best :: hit.Some? && (e == hit.value || Before(index.names, index.priority, hit.value, e))
    ensures hit == if locations == [] then None else Some(locations[0])
  {
    EntryOrderIsStrict(index.names, index.priority);
    NoElements(locations);
    if hit.Some? {
      FirstIsLeast(EntryOrder(index.names, index.priority), locations, hit.value);
    }
  }

  /** Two permutations, with repeats, of the same `add` calls give the same index and the same answers to every
      question. */
  method AddInTwoOrders(names: Names, priority: seq<string>, first: seq<Observation>, second: seq<Observation>,
                        series: string)
    returns (a: Index, b: Index, answersA: Answers, answersB: Answers)
    requires Elements(first) == Elements(second)
    ensures a.entries == b.entries && a.emptyKeys == b.emptyKeys && a.excluded == b.excluded
    ensures ListedIn(a, series, answersA) && ListedIn(b, series, answersB)
    ensures answersA == answersB
  {
    a := new Index(names, priority);
    b := new Index(names, priority);
    a.AddAll(first);
    b.AddAll(second);
    OrderDoesNotMatter(a, b);
    answersA := Ask(a, series);
    answersB := Ask(b, series);
    EntryOrderIsStrict(names, priority);
    AscendingUnique(EntryOrder(names, priority), answersA.locations, answersB.locations);
    AscendingUnique(EntryOrder(names, priority), answersA.emptyKeys, answersB.emptyKeys);
    AscendingUnique(EntryOrder(names, priority), answersA.excluded, answersB.excluded);
    SameCollisions(a, b, answersA.collisions, answersB.collisions);
  }

  /** No path has two locations. */
  lemma OneLocationForEachPath(n: Names, priority: seq<string>, seen: set<Observation>, b: Bucket, d: Entry, e: Entry)
    requires d in BestOf(n, priority, seen, b) && e in BestOf(n, priority, seen, b)
    requires n.identity(d.path) == n.identity(e.path)
    ensures d == e
  {
    BestIsUnique(n, priority, seen, b, n.identity(d.path), d, e);
  }
}
