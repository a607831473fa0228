/**
 `build_inventory`: hashing a payload while others may be writing it (scripts/cbz_classification_staging.py).

 `history` is the payload tree at every instant. Each thing the code does happens at some instant after the
 previous one, so others may have done anything in between. A history that ends before the call does means only
 that the call has not returned by then.
 */
module InventorySnapshot {
  import opened Outcomes
  import opened Ordering

  type Bytes = seq<char>

  /** Identity and mutable state of one file as the OS reports it. */
  datatype Fingerprint = Fingerprint(inode: nat, device: nat, size: nat, mtime: nat)

  datatype File = File(fingerprint: Fingerprint, content: Bytes)

  type Tree = map<string, File>

  /** SHA-256 is injective, so the content stands for its digest. */
  datatype FileEntry = FileEntry(relativePath: string, sizeBytes: nat, content: Bytes)

  datatype Failure =
    | PayloadChanged
    | StillRunning   // the history ends first

  /** The reported size is the content's length. */
  ghost predicate SizesAreTrue(history: seq<Tree>) {
    forall i, name | 0 <= i < |history| && name in history[i] ::
      history[i][name].fingerprint.size == |history[i][name].content|
  }

  /** The path has a file at both instants, with one fingerprint. */
  ghost predicate SameFingerprint(history: seq<Tree>, i: nat, k: nat, path: string) {
    && i <= k < |history| && path in history[i] && path in history[k]
    && history[i][path].fingerprint == history[k][path].fingerprint
  }

  ghost predicate Untouched(history: seq<Tree>, i: nat, k: nat, path: string)
    requires i <= k < |history| && path in history[i]
  {
    forall j | i <= j <= k :: path in history[j] && history[j][path] == history[i][path]
  }

  /** The one assumption about the filesystem: a fingerprint seen twice at a path means the file there was not
      touched in between. */
  ghost predicate FingerprintsNeverRecur(history: seq<Tree>) {
    forall i: nat, k: nat, path | SameFingerprint(history, i, k, path) :: Untouched(history, i, k, path)
  }

  ghost predicate Sane(history: seq<Tree>) {
    SizesAreTrue(history) && FingerprintsNeverRecur(history)
  }

  /** Nobody writes from `start` on. */
  ghost predicate Quiet(history: seq<Tree>, start: nat) {
    forall i | start <= i < |history| :: history[i] == history[start]
  }

  function PathsOf(entries: seq<FileEntry>): (paths: seq<string>)
    ensures |paths| == |entries|
    ensures forall i | 0 <= i < |entries| :: paths[i] == entries[i].relativePath
  {
    seq(|entries|, i requires 0 <= i < |entries| => entries[i].relativePath)
  }

  /** `entries` is the inventory of exactly the tree `t`. */
  ghost predicate InventoryOf(entries: seq<FileEntry>, t: Tree) {
    && Ascending(Less, PathsOf(entries))
    && Elements(PathsOf(entries)) == t.Keys
    && forall e | e in entries ::
         e.relativePath in t && e.content == t[e.relativePath].content && e.sizeBytes == |e.content|
  }

  /** A tree has one inventory, so an unchanged source always mints the same case. */
  lemma InventoryUnique(a: seq<FileEntry>, b: seq<FileEntry>, t: Tree)
    requires InventoryOf(a, t) && InventoryOf(b, t)
    ensures a == b
  {
    LessIsStrictOrder();
    AscendingUnique(Less, PathsOf(a), PathsOf(b));
    forall i | 0 <= i < |a| ensures a[i] == b[i] {
      assert a[i] in a && b[i] in b;
      assert PathsOf(a)[i] == PathsOf(b)[i];
    }
  }

  /** Trees with one inventory have the same files with the same content. */
  lemma InventoryDetermines(entries: seq<FileEntry>, s: Tree, t: Tree)
    requires InventoryOf(entries, s) && InventoryOf(entries, t)
    ensures s.Keys == t.Keys && forall name | name in s :: s[name].content == t[name].content
  {
  }

  /** Some later instant, if the history has one. */
  method Later(history: seq<Tree>, now: nat) returns (ok: bool, t: nat)
    ensures ok ==> now < t < |history|
    ensures !ok ==> t == now && now + 1 >= |history|
  {
    t := now;
    ok := now + 1 < |history|;
    if ok {
      t :| now < t < |history|;
    }
  }

  const HASH_CHUNK := 1048576

  /** The read loop of `_hash_stable_file` on the file openedAt at `openedAt`. What a read returns is only known while
      the file at the path is still the one that was openedAt. */
  method ReadAll(history: seq<Tree>, path: string, openedAt: nat)
    returns (done: bool, data: Bytes, now: nat, ghost blocks: nat)
    requires openedAt < |history| && path in history[openedAt]
    ensures openedAt <= now && (done ==> openedAt < now < |history|) && (!done ==> now == |history| - 1)
    ensures done && (forall i | openedAt <= i <= now :: path in history[i] && history[i][path] == history[openedAt][path])
      ==> data == history[openedAt][path].content
    // A file that stays is read in as many chunks as it has, and once more.
    ensures (forall i | openedAt <= i <= now :: path in history[i] && history[i][path] == history[openedAt][path])
      ==> blocks <= |history[openedAt][path].content| / HASH_CHUNK + 2
    decreases |history| - openedAt
  {
    var file := history[openedAt][path];
    data, now, done, blocks := [], openedAt, false, 0;
    while true
      invariant openedAt <= now < |history|
      invariant (forall i | openedAt <= i <= now :: path in history[i] && history[i][path] == file)
        ==> data <= file.content && (blocks > 0 ==> (blocks - 1) * HASH_CHUNK < |file.content|)
            && |data| == if blocks * HASH_CHUNK < |file.content| then blocks * HASH_CHUNK else |file.content|
      decreases |history| - now
    {
      var ok;
      ok, now := Later(history, now);
      if !ok {
        return;
      }
      blocks := blocks + 1;
      var chunk: Bytes := *;
      if path in history[now] && history[now][path] == file && |data| <= |file.content| {
        var end := if |data| + HASH_CHUNK < |file.content| then |data| + HASH_CHUNK else |file.content|;
        chunk := file.content[|data|..end];
      }
      if chunk == [] {
        done := true;
        return;
      }
      data := data + chunk;
    }
  }

  /** `_hash_stable_file`: a result is the file's content and fingerprint at the instant `now`. */
  method HashStableFile(history: seq<Tree>, path: string, start: nat)
    returns (r: Result<(nat, Bytes, Fingerprint), Failure>, now: nat)
    requires Sane(history) && start < |history|
    ensures start <= now
    ensures r.Ok? ==>
      && now < |history| && path in history[now]
      && r.value == (|history[now][path].content|, history[now][path].content, history[now][path].fingerprint)
    ensures Quiet(history, start) && path in history[start] ==> r != Err(PayloadChanged)
    ensures r == Err(StillRunning) ==> now == |history| - 1
  {
    now := start;
    r := Err(StillRunning);
    var ok, before, openedAt;
    ok, before := Later(history, start);
    if !ok { return; }
    now := before;
    if path !in history[before] {
      return Err(PayloadChanged), now;   // FileNotFoundError, as the caller reports it
    }
    ok, openedAt := Later(history, before);
    if !ok { return; }
    now := openedAt;
    if path !in history[openedAt] {
      return Err(PayloadChanged), now;
    }
    var data;
    ghost var blocks;
    ok, data, now, blocks := ReadAll(history, path, openedAt);
    if !ok { return; }
    var after;
    ok, after := Later(history, now);
    if !ok { return; }
    now := after;
    if path !in history[after] || history[before][path].fingerprint != history[after][path].fingerprint {
      return Err(PayloadChanged), now;
    }
    assert SameFingerprint(history, before, after, path);
    assert history[after][path] == history[before][path] == history[openedAt][path];
    if |data| != history[after][path].fingerprint.size {
      return Err(PayloadChanged), now;
    }
    return Ok((history[after][path].fingerprint.size, data, history[after][path].fingerprint)), now;
  }

  /** At some instant in between, the file at the entry's path was as the entry says, with `fingerprint`. */
  ghost predicate SeenAs(history: seq<Tree>, start: nat, now: nat, e: FileEntry, fingerprint: Fingerprint) {
    && e.sizeBytes == |e.content|
    && exists t | start <= t <= now && t < |history| ::
         e.relativePath in history[t] && history[t][e.relativePath] == File(fingerprint, e.content)
  }

  /** The entries hashed so far are of `paths`, in order, each with its fingerprint. */
  ghost predicate HashedSoFar(history: seq<Tree>, start: nat, now: nat, paths: seq<string>,
                              entries: seq<FileEntry>, fingerprints: map<string, Fingerprint>) {
    && PathsOf(entries) == paths
    && fingerprints.Keys == Elements(paths)
    && forall i | 0 <= i < |entries| ::
         entries[i].relativePath in fingerprints
         && SeenAs(history, start, now, entries[i], fingerprints[entries[i].relativePath])
  }

  lemma HashedOneMore(history: seq<Tree>, start: nat, now: nat, later: nat, paths: seq<string>,
                      entries: seq<FileEntry>, fingerprints: map<string, Fingerprint>,
                      e: FileEntry, fingerprint: Fingerprint)
    requires HashedSoFar(history, start, now, paths, entries, fingerprints) && now <= later
    requires SeenAs(history, start, later, e, fingerprint)
    requires e.relativePath !in paths
    ensures HashedSoFar(history, start, later, paths + [e.relativePath], entries + [e],
                        fingerprints[e.relativePath := fingerprint])
  {
  }

  lemma NotBefore(paths: seq<string>, i: nat)
    requires Ascending(Less, paths) && i < |paths|
    ensures paths[i] !in paths[..i]
  {
    forall j | 0 <= j < i ensures paths[..i][j] != paths[i] {
      LessTotal(paths[j], paths[i]);
    }
  }

  /** The hashing pass. */
  method HashAll(history: seq<Tree>, paths: seq<string>, start: nat)
    returns (failure: Option<Failure>, entries: seq<FileEntry>, fingerprints: map<string, Fingerprint>, now: nat)
    requires Sane(history) && start < |history| && Ascending(Less, paths)
    ensures start <= now
    ensures failure.None? ==> now < |history| && HashedSoFar(history, start, now, paths, entries, fingerprints)
    ensures Quiet(history, start) && Elements(paths) <= history[start].Keys ==> failure != Some(PayloadChanged)
    ensures failure == Some(StillRunning) ==> now == |history| - 1
  {
    failure, entries, fingerprints, now := None, [], map[], start;
    for i := 0 to |paths|
      invariant start <= now < |history| && failure.None?
      invariant HashedSoFar(history, start, now, paths[..i], entries, fingerprints)
    {
      var r, t := HashStableFile(history, paths[i], now);
      if r.Err? {
        assert paths[i] in Elements(paths);
        return Some(r.error), entries, fingerprints, t;
      }
      var entry := FileEntry(paths[i], r.value.0, r.value.1);
      NotBefore(paths, i);
      assert history[t][paths[i]] == File(r.value.2, r.value.1);
      HashedOneMore(history, start, now, t, paths[..i], entries, fingerprints, entry, r.value.2);
      assert paths[..i + 1] == paths[..i] + [paths[i]];
      now := t;
      entries := entries + [entry];
      fingerprints := fingerprints[paths[i] := r.value.2];
    }
    assert paths[..|paths|] == paths;
  }

  /** The file at `path` had its recorded fingerprint at some instant from `second` on. */
  ghost predicate StillAs(history: seq<Tree>, second: nat, path: string, fingerprint: Fingerprint) {
    exists t | second <= t < |history| :: path in history[t] && history[t][path].fingerprint == fingerprint
  }

  /** The closing pass over the second enumeration: every fingerprint again. */
  method RecheckAll(history: seq<Tree>, members: seq<string>, fingerprints: map<string, Fingerprint>, second: nat)
    returns (failure: Option<Failure>, now: nat)
    requires second < |history| && Elements(members) == fingerprints.Keys
    ensures second <= now
    ensures failure.None? ==> now < |history|
    ensures failure.None? ==> forall path | path in fingerprints :: StillAs(history, second, path, fingerprints[path])
    ensures Quiet(history, second)
            && (forall path | path in fingerprints :: StillAs(history, second, path, fingerprints[path]))
      ==> failure != Some(PayloadChanged)
    ensures failure == Some(StillRunning) ==> now == |history| - 1
  {
    failure, now := None, second;
    for i := 0 to |members|
      invariant second <= now < |history| && failure.None?
      invariant forall j | 0 <= j < i ::
        members[j] in fingerprints && StillAs(history, second, members[j], fingerprints[members[j]])
    {
      var path := members[i];
      assert path in Elements(members);
      var ok, t := Later(history, now);
      if !ok {
        return Some(StillRunning), now;
      }
      now := t;
      if path !in history[now] || history[now][path].fingerprint != fingerprints[path] {
        return Some(PayloadChanged), now;
      }
    }
    forall path | path in fingerprints ensures StillAs(history, second, path, fingerprints[path]) {
      assert path in Elements(members);
    }
  }

  /** A file seen before and again, with one fingerprint, was that file in between. */
  lemma SeenThroughout(history: seq<Tree>, start: nat, hashed: nat, second: nat, e: FileEntry, fingerprint: Fingerprint)
    requires Sane(history) && hashed <= second < |history|
    requires SeenAs(history, start, hashed, e, fingerprint)
    requires StillAs(history, second, e.relativePath, fingerprint)
    ensures e.relativePath in history[second] && history[second][e.relativePath] == File(fingerprint, e.content)
  {
    var path := e.relativePath;
    var i: nat :| start <= i <= hashed && path in history[i] && history[i][path] == File(fingerprint, e.content);
    var k: nat :| second <= k < |history| && path in history[k] && history[k][path].fingerprint == fingerprint;
    assert SameFingerprint(history, i, k, path);
  }

  /** `build_inventory`. An inventory it returns is exactly the tree at one instant of the call: the second
      enumeration. It refuses only if somebody wrote meanwhile. */
  method BuildInventory(history: seq<Tree>, start: nat) returns (r: Result<seq<FileEntry>, Failure>, now: nat)
    requires Sane(history) && start < |history|
    ensures start <= now
    ensures r.Ok? ==> exists t :: start <= t <= now && t < |history| && InventoryOf(r.value, history[t])
    ensures Quiet(history, start) ==> r != Err(PayloadChanged)
    ensures r == Err(StillRunning) ==> now == |history| - 1
  {
    now := start;
    r := Err(StillRunning);
    var ok, first;
    ok, first := Later(history, start);
    if !ok { return; }
    now := first;
    LessIsStrictOrder();
    var firstPass := Sort(Less, history[first].Keys);

    var failure, entries, fingerprints, hashed := HashAll(history, firstPass, first);
    now := hashed;
    if failure.Some? {
      return Err(failure.value), now;
    }

    var second;
    ok, second := Later(history, hashed);
    if !ok { return; }
    now := second;
    if history[second].Keys != history[first].Keys {
      return Err(PayloadChanged), now;
    }
    var finalMembers := Sort(Less, history[second].Keys);
    AscendingUnique(Less, firstPass, finalMembers);
    if Quiet(history, start) {
      forall path | path in fingerprints ensures StillAs(history, second, path, fingerprints[path]) {
        var i :| 0 <= i < |firstPass| && firstPass[i] == path;
        assert PathsOf(entries)[i] == entries[i].relativePath;
      }
    }
    var rechecked;
    failure, rechecked := RecheckAll(history, finalMembers, fingerprints, second);
    now := rechecked;
    if failure.Some? {
      return Err(failure.value), now;
    }
    forall e | e in entries ensures
      && e.relativePath in history[second] && e.content == history[second][e.relativePath].content
      && e.sizeBytes == |e.content|
    {
      var k :| 0 <= k < |entries| && entries[k] == e;
      SeenThroughout(history, first, hashed, second, e, fingerprints[e.relativePath]);
    }
    assert InventoryOf(entries, history[second]);
    return Ok(entries), now;
  }
}
