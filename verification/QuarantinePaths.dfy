/**
 Where the quarantine puts what it is given, and when it cannot: `unique_path` and the `mkdir` before a move in
 comic_automation/series_resolver.py. A file of the quarantine stands in the way of every directory below its path.
 */
module QuarantinePaths {
  import opened Outcomes
  import opened CanonicalNumbers
  import opened LibraryTree
  import opened Ordering
  import opened PlainNames

  // ------------------------------------------------------------ a path that is free

  function NumberedName(stem: string, index: nat, suffix: string): string {
    stem + " (" + NatText(index) + ")" + suffix
  }

  /** `with_name(f"{stem} ({index}){suffix}")` */
  function Numbered(n: Names, p: Path, index: nat): Path
    requires p != []
  {
    var (stem, suffix) := n.split(p[|p| - 1]);
    p[..|p| - 1] + [NumberedName(stem, index, suffix)]
  }

  lemma NumberedDiffer(n: Names, p: Path, i: nat, j: nat)
    requires p != [] && Numbered(n, p, i) == Numbered(n, p, j)
    ensures i == j
  {
    var (stem, suffix) := n.split(p[|p| - 1]);
    var a, b := NumberedName(stem, i, suffix), NumberedName(stem, j, suffix);
    assert Numbered(n, p, i)[|p| - 1] == a && Numbered(n, p, j)[|p| - 1] == b;
    assert NatText(i) == a[|stem| + 2..|a| - |suffix| - 1] == b[|stem| + 2..|b| - |suffix| - 1] == NatText(j);
    NatTextShape(i);
    NatTextShape(j);
  }

  ghost function Tried(n: Names, p: Path, index: nat): set<Path>
    requires p != []
  {
    set i | 2 <= i < index :: Numbered(n, p, i)
  }

  lemma {:induction false} TriedSize(n: Names, p: Path, index: nat)
    requires p != [] && index >= 2
    ensures |Tried(n, p, index)| == index - 2
  {
    if index > 2 {
      TriedSize(n, p, index - 1);
      assert Tried(n, p, index) == Tried(n, p, index - 1) + {Numbered(n, p, index - 1)};
      if Numbered(n, p, index - 1) in Tried(n, p, index - 1) {
        var i :| 2 <= i < index - 1 && Numbered(n, p, i) == Numbered(n, p, index - 1);
        NumberedDiffer(n, p, i, index - 1);
      }
    } else {
      assert Tried(n, p, index) == {};
    }
  }

  /** The path itself, or it with the first free number. */
  ghost predicate FirstFree(n: Names, taken: set<Path>, p: Path, free: Path)
    requires p != []
  {
    if p !in taken then free == p else
    free !in taken && exists i: nat :: i >= 2 && free == Numbered(n, p, i) && Tried(n, p, i) <= taken
  }

  /** `unique_path`: the search ends, for only finitely many paths exist, and finds the first free number. */
  method UniquePath(n: Names, taken: set<Path>, p: Path) returns (free: Path)
    requires p != []
    ensures free !in taken && FirstFree(n, taken, p, free)
  {
    if p !in taken {
      return p;
    }
    var index := 2;
    while Numbered(n, p, index) in taken
      invariant index >= 2 && Tried(n, p, index) <= taken
      decreases |taken| + 2 - index
    {
      assert Tried(n, p, index + 1) <= taken by {
        assert Tried(n, p, index + 1) == Tried(n, p, index) + {Numbered(n, p, index)};
      }
      TriedSize(n, p, index + 1);
      SubsetSize(Tried(n, p, index + 1), taken);
      index := index + 1;
    }
    free := Numbered(n, p, index);
  }

  /** The node was put at the first free path. */
  ghost predicate Filed(n: Names, q: map<Path, Node>, q': map<Path, Node>, path: Path, node: Node)
    requires path != []
  {
    exists free :: free !in Taken(q) && FirstFree(n, Taken(q), path, free) && q' == q[free := node]
  }

  // ------------------------------------------------------------ files in the way of a library's directories

  /** No apostrophe of any kind in the path. */
  predicate Unmarked(n: Names, p: Path) {
    forall name, c | name in p && c in name :: c !in n.marks && c != '\''
  }

  /** A file may stand in the way of the directory `d`, by one of its spellings. */
  predicate MayWall(n: Names, walls: set<Path>, d: Path) {
    exists f | f in walls :: PlainPath(n, f) <= PlainPath(n, d)
  }

  /** A file stands in the way of the directory `d`, however it is spelled. */
  predicate MustWall(n: Names, walls: set<Path>, d: Path) {
    exists f | f in walls :: Unmarked(n, f) && f <= PlainPath(n, d)
  }

  lemma PlainPrefix(n: Names, d: Path, i: nat)
    requires i <= |d|
    ensures PlainPath(n, d[..i]) == PlainPath(n, d)[..i]
  {
  }

  lemma UnmarkedIsItself(n: Names, name: string, s: string)
    requires Plain(n, s) == name && forall c | c in name :: c !in n.marks && c != '\''
    ensures s == name
  {
    forall i | 0 <= i < |s| ensures s[i] == name[i] {
      assert name[i] in name;
    }
  }

  lemma MustIsWalled(n: Names, walls: set<Path>, d: Path)
    requires MustWall(n, walls, d)
    ensures Walled(walls, d)
  {
    var f :| f in walls && Unmarked(n, f) && f <= PlainPath(n, d);
    forall i | 0 <= i < |f| ensures f[i] == d[i] {
      assert f[i] in f;
      UnmarkedIsItself(n, f[i], d[i]);
    }
    assert d[..|f|] == f;
  }

  /** Every name under which a directory of the tree may stand, all plain. */
  function Dirs(n: Names, node: Node, at: Path): set<Path>
    decreases node
  {
    match node
    case File(_) => {}
    case Dir(es) => {at} + set m, p | m in es && p in Dirs(n, es[m], at + [Plain(n, m)]) :: p
  }

  /** Every path to which a file of the tree may come, all plain. */
  function Files(n: Names, node: Node, at: Path): set<Path>
    decreases node
  {
    match node
    case File(_) => {at}
    case Dir(es) => set m, p | m in es && p in Files(n, es[m], at + [Plain(n, m)]) :: p
  }

  predicate PrefixClosed(dirs: set<Path>) {
    forall d, i | d in dirs && 0 <= i <= |d| :: d[..i] in dirs
  }

  lemma {:induction false} DirsBelow(n: Names, node: Node, at: Path, d: Path)
    requires d in Dirs(n, node, at)
    ensures at <= d
    decreases node
  {
    var es := node.entries;
    if d != at {
      var m :| m in es && d in Dirs(n, es[m], at + [Plain(n, m)]);
      DirsBelow(n, es[m], at + [Plain(n, m)], d);
    }
  }

  lemma {:induction false} DirsAbove(n: Names, node: Node, at: Path, d: Path, i: nat)
    requires d in Dirs(n, node, at) && |at| <= i <= |d|
    ensures d[..i] in Dirs(n, node, at)
    decreases node
  {
    var es := node.entries;
    DirsBelow(n, node, at, d);
    if i == |at| {
      assert d[..i] == at;
    } else {
      var m :| m in es && d in Dirs(n, es[m], at + [Plain(n, m)]);
      DirsAbove(n, es[m], at + [Plain(n, m)], d, i);
    }
  }

  lemma DirsPrefixClosed(n: Names, node: Node)
    ensures PrefixClosed(Dirs(n, node, []))
  {
    forall d, i | d in Dirs(n, node, []) && 0 <= i <= |d| ensures d[..i] in Dirs(n, node, []) {
      DirsAbove(n, node, [], d, i);
    }
  }

  /** No file and directory of the tree can come to the same path. */
  predicate NoTypeConflict(n: Names, root: Node) {
    Files(n, root, []) !! Dirs(n, root, [])
  }

  /** No directory can come to a path that `unique_path` may give to one of the files. */
  ghost predicate Unnumbered(n: Names, files: set<Path>, dirs: set<Path>) {
    forall x, i: nat | x != [] && i >= 2 && PlainPath(n, x) in files :: PlainPath(n, Numbered(n, x, i)) !in dirs
  }

  // ------------------------------------------------------------ what a run keeps

  /** Known before a run: the paths of the library's files and directories, some files of the quarantine, that no type
      conflict occurs (`regular`), and also that nothing put into the quarantine gets into the way (`quiet`). */
  datatype Plan = Plan(files: set<Path>, dirs: set<Path>, walls: set<Path>, regular: bool, quiet: bool)

  ghost predicate Calm(n: Names, plan: Plan, q: map<Path, Node>) {
    && plan.walls <= FilesOf(q)
    && (plan.regular ==> plan.files !! plan.dirs)
    && (plan.quiet ==>
          && plan.regular && PrefixClosed(plan.dirs) && Unnumbered(n, plan.files, plan.dirs)
          && forall f | f in FilesOf(q) && PlainPath(n, f) in plan.dirs :: f in plan.walls)
  }

  lemma StaysCalm(n: Names, plan: Plan, q: map<Path, Node>, path: Path, free: Path, node: Node)
    requires Calm(n, plan, q) && free !in q && path != []
    requires plan.quiet ==> node.File? && PlainPath(n, path) in plan.files
    requires free == path || exists i: nat :: i >= 2 && free == Numbered(n, path, i)
    ensures Calm(n, plan, q[free := node])
  {
    FilesGrow(q, free, node);
    if plan.quiet && free != path {
      var i: nat :| i >= 2 && free == Numbered(n, path, i);
      assert PlainPath(n, free) !in plan.dirs;
    }
  }

  /** Only what was there before the run stands in the way of a directory of the library. */
  lemma WallIsKnown(n: Names, plan: Plan, q: map<Path, Node>, d: Path)
    requires Calm(n, plan, q) && plan.quiet && PlainPath(n, d) in plan.dirs && Walled(FilesOf(q), d)
    ensures MayWall(n, plan.walls, d)
  {
    var i :| 0 <= i <= |d| && d[..i] in FilesOf(q);
    PlainPrefix(n, d, i);
    assert PlainPath(n, d[..i]) <= PlainPath(n, d);
  }

  /** The files and directories below this path are known. */
  predicate InPlan(n: Names, plan: Plan, node: Node, path: Path) {
    Files(n, node, PlainPath(n, path)) <= plan.files && Dirs(n, node, PlainPath(n, path)) <= plan.dirs
  }

  predicate OptInPlan(n: Names, plan: Plan, o: Option<Node>, path: Path) {
    o.Some? ==> InPlan(n, plan, o.value, path)
  }

  // ------------------------------------------------------------ merging two entries

  predicate Either(a: Option<Node>, b: Option<Node>, p: Path, content: string) {
    FileIn(a, p) == Some(content) || FileIn(b, p) == Some(content)
  }

  /** Merging `a` into `b` leaves `left` and `merged`: every file was there, and below a wall every file still is. */
  ghost predicate MergeKeeps(plan: Plan, path: Path, a: Option<Node>, b: Option<Node>, left: Option<Node>,
                             merged: Option<Node>) {
    plan.regular ==> forall p, c ::
      && (Either(left, merged, p, c) ==> Either(a, b, p, c))
      && (Either(a, b, p, c) && Walled(plan.walls, Home(path + p)) ==> Either(left, merged, p, c))
  }

  /** Two different files would come to one path in a directory that may be walled. */
  ghost predicate MergeBlame(n: Names, plan: Plan, path: Path, a: Option<Node>, b: Option<Node>) {
    plan.quiet ==> exists p, c, d ::
      c != d && FileIn(a, p) == Some(c) && FileIn(b, p) == Some(d) && MayWall(n, plan.walls, Home(path + p))
  }

  ghost predicate MergeFair(n: Names, plan: Plan, path: Path, a: Option<Node>, b: Option<Node>, left: Option<Node>,
                            merged: Option<Node>, ok: bool) {
    && OptInPlan(n, plan, left, path) && OptInPlan(n, plan, merged, path)
    && MergeKeeps(plan, path, a, b, left, merged)
    && (!ok ==> MergeBlame(n, plan, path, a, b))
  }

  lemma MoveIsFair(n: Names, plan: Plan, path: Path, a: Option<Node>)
    requires OptInPlan(n, plan, a, path)
    ensures MergeFair(n, plan, path, a, None, None, a, true)
  {
  }

  lemma NothingIsFair(n: Names, plan: Plan, path: Path, a: Option<Node>, b: Option<Node>, ok: bool)
    requires OptInPlan(n, plan, a, path) && OptInPlan(n, plan, b, path)
    requires !ok ==> MergeBlame(n, plan, path, a, b)
    ensures MergeFair(n, plan, path, a, b, a, b, ok)
  {
  }

  /** One of two files stays where the other can be moved, or they are the same. */
  lemma SettlingIsFair(n: Names, plan: Plan, path: Path, a: Node, b: Node, kept: Node)
    requires a.File? && b.File? && (kept == a || kept == b)
    requires OptInPlan(n, plan, Some(a), path) && OptInPlan(n, plan, Some(b), path)
    requires a == b || !Walled(plan.walls, Home(path))
    ensures MergeFair(n, plan, path, Some(a), Some(b), None, Some(kept), true)
  {
    assert path + [] == path;
  }

  /** A quarantine that fails is to blame on two files and a wall. */
  lemma FailureIsFair(n: Names, plan: Plan, q: map<Path, Node>, path: Path, a: Node, b: Node)
    requires a.File? && b.File? && a != b && Calm(n, plan, q) && Walled(FilesOf(q), Home(path))
    requires PlainPath(n, Home(path)) in plan.dirs
    requires OptInPlan(n, plan, Some(a), path) && OptInPlan(n, plan, Some(b), path)
    ensures MergeFair(n, plan, path, Some(a), Some(b), Some(a), Some(b), false)
  {
    if plan.quiet {
      WallIsKnown(n, plan, q, Home(path));
      assert path + [] == path;
      assert FileIn(Some(a), []) == Some(a.content) && FileIn(Some(b), []) == Some(b.content);
    }
  }

  /** A file and a directory do not meet in a regular library. */
  lemma TypeConflictIsIrregular(n: Names, plan: Plan, q: map<Path, Node>, path: Path, a: Node, b: Node,
                                left: Option<Node>, ok: bool)
    requires InPlan(n, plan, a, path) && InPlan(n, plan, b, path) && a.File? != b.File?
    requires OptInPlan(n, plan, left, path) && Calm(n, plan, q)
    ensures !plan.regular && !plan.quiet && MergeFair(n, plan, path, Some(a), Some(b), left, Some(b), ok)
  {
  }

  lemma PutInPlan(n: Names, plan: Plan, path: Path, es: map<string, Node>, m: string, o: Option<Node>)
    requires InPlan(n, plan, Dir(es), path) && OptInPlan(n, plan, o, path + [m])
    ensures InPlan(n, plan, Dir(Put(es, m, o)), path)
  {
    var at, es' := PlainPath(n, path), Put(es, m, o);
    assert PlainPath(n, path + [m]) == at + [Plain(n, m)];
    forall k | k in es'
      ensures Files(n, es'[k], at + [Plain(n, k)]) <= plan.files && Dirs(n, es'[k], at + [Plain(n, k)]) <= plan.dirs
    {
      if k != m {
        assert k in es && es'[k] == es[k];
      }
    }
  }

  lemma ChildInPlan(n: Names, plan: Plan, path: Path, es: map<string, Node>, m: string)
    requires InPlan(n, plan, Dir(es), path)
    ensures OptInPlan(n, plan, Entry(es, m), path + [m])
    ensures PlainPath(n, path) in plan.dirs && Home(path + [m]) == path
  {
    assert PlainPath(n, path + [m]) == PlainPath(n, path) + [Plain(n, m)];
  }

  lemma BelowEntry(es: map<string, Node>, p: Path)
    ensures FileIn(Some(Dir(es)), p) == if p == [] then None else FileIn(Entry(es, p[0]), p[1..])
  {
  }

  /** One child merged, as seen from the two directories. */
  lemma OneChildKeeps(plan: Plan, path: Path, waiting: map<string, Node>, entries: map<string, Node>, m: string,
                      left: Option<Node>, one: Node)
    requires MergeKeeps(plan, path + [m], Entry(waiting, m), Entry(entries, m), left, Some(one))
    ensures MergeKeeps(plan, path, Some(Dir(waiting)), Some(Dir(entries)),
                       Some(Dir(Put(waiting, m, left))), Some(Dir(entries[m := one])))
  {
    var waiting', entries' := Put(waiting, m, left), entries[m := one];
    assert Entry(waiting', m) == left && Entry(entries', m) == Some(one);
    assert forall k | k != m :: Entry(waiting', k) == Entry(waiting, k) && Entry(entries', k) == Entry(entries, k);
    if plan.regular {
      forall p, c ensures
        && (Either(Some(Dir(waiting')), Some(Dir(entries')), p, c) ==> Either(Some(Dir(waiting)), Some(Dir(entries)), p, c))
        && (Either(Some(Dir(waiting)), Some(Dir(entries)), p, c) && Walled(plan.walls, Home(path + p)) ==>
              Either(Some(Dir(waiting')), Some(Dir(entries')), p, c))
      {
        hide Walled, FileAt;
        BelowEntry(waiting, p);
        BelowEntry(entries, p);
        BelowEntry(waiting', p);
        BelowEntry(entries', p);
        if p != [] {
          assert path + p == path + [p[0]] + p[1..];
          assert Either(Some(Dir(waiting)), Some(Dir(entries)), p, c)
            == Either(Entry(waiting, p[0]), Entry(entries, p[0]), p[1..], c);
        }
      }
    }
  }

  lemma MergeKeepsThen(plan: Plan, path: Path, a: Option<Node>, b: Option<Node>, a1: Option<Node>, b1: Option<Node>,
                       a2: Option<Node>, b2: Option<Node>)
    requires MergeKeeps(plan, path, a, b, a1, b1) && MergeKeeps(plan, path, a1, b1, a2, b2)
    ensures MergeKeeps(plan, path, a, b, a2, b2)
  {
    hide Walled, Either;
  }

  /** The blame of a child is one of the directories. */
  lemma ChildBlame(n: Names, plan: Plan, path: Path, source: map<string, Node>, target: map<string, Node>, m: string)
    requires MergeBlame(n, plan, path + [m], Entry(source, m), Entry(target, m))
    ensures MergeBlame(n, plan, path, Some(Dir(source)), Some(Dir(target)))
  {
    hide MayWall, FileAt;
    if plan.quiet {
      var p, c, d :| c != d && FileIn(Entry(source, m), p) == Some(c) && FileIn(Entry(target, m), p) == Some(d)
        && MayWall(n, plan.walls, Home(path + [m] + p));
      BelowEntry(source, [m] + p);
      BelowEntry(target, [m] + p);
      assert path + ([m] + p) == path + [m] + p;
      assert FileIn(Some(Dir(source)), [m] + p) == Some(c) && FileIn(Some(Dir(target)), [m] + p) == Some(d);
    }
  }

  /** One child merged, for the loop that merges directories. */
  lemma OneChildIsFair(n: Names, plan: Plan, path: Path, waiting: map<string, Node>, entries: map<string, Node>, m: string,
                       left: Option<Node>, one: Node, ok: bool)
    requires InPlan(n, plan, Dir(waiting), path) && InPlan(n, plan, Dir(entries), path)
    requires MergeFair(n, plan, path + [m], Entry(waiting, m), Entry(entries, m), left, Some(one), ok)
    ensures MergeFair(n, plan, path, Some(Dir(waiting)), Some(Dir(entries)),
                      Some(Dir(Put(waiting, m, left))), Some(Dir(entries[m := one])), ok)
  {
    hide MergeKeeps, MergeBlame, InPlan;
    OneChildKeeps(plan, path, waiting, entries, m, left, one);
    PutInPlan(n, plan, path, waiting, m, left);
    PutInPlan(n, plan, path, entries, m, Some(one));
    if !ok {
      ChildBlame(n, plan, path, waiting, entries, m);
    }
  }

  lemma MergeFairThen(n: Names, plan: Plan, path: Path, a: Option<Node>, b: Option<Node>, a1: Option<Node>, b1: Option<Node>,
                      a2: Option<Node>, b2: Option<Node>, ok: bool)
    requires MergeFair(n, plan, path, a, b, a1, b1, true) && MergeFair(n, plan, path, a1, b1, a2, b2, ok)
    requires plan.quiet ==> plan.regular
    ensures MergeFair(n, plan, path, a, b, a2, b2, ok)
  {
    hide Walled, MayWall, InPlan, FileIn;
    MergeKeepsThen(plan, path, a, b, a1, b1, a2, b2);
    if !ok && plan.quiet {
      var p, c, d :| c != d && FileIn(a1, p) == Some(c) && FileIn(b1, p) == Some(d) && MayWall(n, plan.walls, Home(path + p));
      assert Either(a1, b1, p, c) && Either(a1, b1, p, d);
      assert Either(a, b, p, c) && Either(a, b, p, d);
    }
  }

  /** An empty directory may go. */
  lemma EmptyGoes(n: Names, plan: Plan, path: Path, a: Option<Node>, b: Option<Node>, merged: Option<Node>)
    requires MergeFair(n, plan, path, a, b, Some(Dir(map[])), merged, true)
    ensures MergeFair(n, plan, path, a, b, None, merged, true)
  {
    hide Walled;
    forall p, c ensures Either(None, merged, p, c) == Either(Some(Dir(map[])), merged, p, c) {
    }
  }

  // ------------------------------------------------------------ repairing a directory

  /** A file of this content that can be brought to `s`. */
  ghost predicate Holds(n: Names, node: Node, s: Path, content: string) {
    exists p :: Canon(n, p) == s && FileAt(node, p) == Some(content)
  }

  /** Two different files come to one path. */
  ghost predicate Clashing(n: Names, node: Node, s: Path) {
    exists c, d :: c != d && Holds(n, node, s, c) && Holds(n, node, s, d)
  }

  /** Repairing `a` at `path` leaves `b`: every file was there, and below a wall every file still is. */
  ghost predicate Keeps(n: Names, plan: Plan, path: Path, a: Node, b: Node) {
    plan.regular ==> forall s, c ::
      && (Holds(n, b, s, c) ==> Holds(n, a, s, c))
      && (Holds(n, a, s, c) && MustWall(n, plan.walls, Home(path + s)) ==> Holds(n, b, s, c))
  }

  ghost predicate Blame(n: Names, plan: Plan, path: Path, a: Node) {
    plan.quiet ==> exists s :: Clashing(n, a, s) && MayWall(n, plan.walls, Home(path + s))
  }

  ghost predicate Fair(n: Names, plan: Plan, path: Path, a: Node, b: Node, ok: bool) {
    InPlan(n, plan, b, path) && Keeps(n, plan, path, a, b) && (!ok ==> Blame(n, plan, path, a))
  }

  lemma NoRepairIsFair(n: Names, plan: Plan, path: Path, a: Node)
    requires InPlan(n, plan, a, path)
    ensures Fair(n, plan, path, a, a, true)
  {
    hide Holds, MustWall;
  }

  lemma FairThen(n: Names, plan: Plan, path: Path, a: Node, b: Node, c: Node, ok: bool)
    requires Fair(n, plan, path, a, b, true) && Fair(n, plan, path, b, c, ok) && (plan.quiet ==> plan.regular)
    ensures Fair(n, plan, path, a, c, ok)
  {
    hide Holds, MustWall, MayWall, InPlan;
    if !ok && plan.quiet {
      var s :| Clashing(n, b, s) && MayWall(n, plan.walls, Home(path + s));
      assert Clashing(n, a, s);
    }
  }

  /** Walls do not depend on the spelling of a path. */
  lemma SameHome(n: Names, walls: set<Path>, p: Path, q: Path)
    requires PlainPath(n, p) == PlainPath(n, q)
    ensures MayWall(n, walls, Home(p)) == MayWall(n, walls, Home(q))
    ensures MustWall(n, walls, Home(p)) == MustWall(n, walls, Home(q))
  {
    if p != [] {
      PlainPrefix(n, p, |p| - 1);
      PlainPrefix(n, q, |q| - 1);
    }
  }

  lemma PlainPathJoin(n: Names, p: Path, q: Path)
    ensures PlainPath(n, p + q) == PlainPath(n, p) + PlainPath(n, q)
  {
  }

  lemma CanonBelow(n: Names, m: string, p: Path)
    ensures Canon(n, [m] + p) == [Plain(n, m)] + if Excluded(n, m) then p else Canon(n, p)
  {
    assert ([m] + p)[1..] == p;
  }

  lemma SamePlainBelow(n: Names, path: Path, m: string, k: string, p: Path, q: Path)
    requires Plain(n, m) == Plain(n, k) && PlainPath(n, p) == PlainPath(n, q)
    ensures PlainPath(n, path + ([m] + p)) == PlainPath(n, path + [k] + q)
  {
    PlainPathJoin(n, path, [m] + p);
    PlainPathJoin(n, [m], p);
    PlainPathJoin(n, path + [k], q);
    PlainPathJoin(n, path, [k]);
    assert PlainPath(n, [m]) == [Plain(n, m)] == [Plain(n, k)] == PlainPath(n, [k]);
  }

  lemma SameHomeBelow(n: Names, walls: set<Path>, path: Path, m: string, k: string, p: Path, q: Path)
    requires Plain(n, m) == Plain(n, k) && PlainPath(n, p) == PlainPath(n, q)
    ensures MayWall(n, walls, Home(path + ([m] + p))) == MayWall(n, walls, Home(path + [k] + q))
    ensures MustWall(n, walls, Home(path + ([m] + p))) == MustWall(n, walls, Home(path + [k] + q))
  {
    hide MayWall, MustWall;
    SamePlainBelow(n, path, m, k, p, q);
    SameHome(n, walls, path + ([m] + p), path + [k] + q);
  }

  lemma HoldsAt(n: Names, es: map<string, Node>, m: string, p: Path, c: string)
    requires FileIn(Entry(es, m), p) == Some(c)
    ensures Holds(n, Dir(es), Canon(n, [m] + p), c)
  {
    BelowEntry(es, [m] + p);
    assert FileAt(Dir(es), [m] + p) == Some(c);
  }

  /** A file of a directory is still where it was or was under one of the names that changed. */
  lemma HoldsElsewhere(n: Names, es: map<string, Node>, es': map<string, Node>, changed: set<string>, s: Path, c: string)
    requires forall k | k !in changed :: Entry(es, k) == Entry(es', k)
    requires Holds(n, Dir(es), s, c)
    ensures Holds(n, Dir(es'), s, c)
      || exists k, p :: k in changed && FileIn(Entry(es, k), p) == Some(c) && s == Canon(n, [k] + p)
  {
    var p :| Canon(n, p) == s && FileAt(Dir(es), p) == Some(c);
    BelowEntry(es, p);
    assert p == [p[0]] + p[1..];
    if p[0] !in changed {
      HoldsAt(n, es', p[0], p[1..], c);
    }
  }

  /** One child repaired, as seen from its directory. */
  lemma ChildHolds(n: Names, es: map<string, Node>, es': map<string, Node>, m: string, s: Path, c: string)
    requires m in es && m in es' && !Excluded(n, m) && forall k | k != m :: Entry(es, k) == Entry(es', k)
    requires Holds(n, Dir(es), s, c)
    requires forall q :: Holds(n, es[m], q, c) && s == [Plain(n, m)] + q ==> Holds(n, es'[m], q, c)
    ensures Holds(n, Dir(es'), s, c)
  {
    HoldsElsewhere(n, es, es', {m}, s, c);
    if !Holds(n, Dir(es'), s, c) {
      var k, p :| k in {m} && FileIn(Entry(es, k), p) == Some(c) && s == Canon(n, [k] + p);
      CanonBelow(n, m, p);
      assert Holds(n, es'[m], Canon(n, p), c);
      var p' :| Canon(n, p') == Canon(n, p) && FileAt(es'[m], p') == Some(c);
      CanonBelow(n, m, p');
      HoldsAt(n, es', m, p', c);
    }
  }

  lemma ChildKeeps(n: Names, plan: Plan, path: Path, es: map<string, Node>, m: string, one: Node)
    requires m in es && !Excluded(n, m) && Keeps(n, plan, path + [m], es[m], one)
    ensures Keeps(n, plan, path, Dir(es), Dir(es[m := one]))
  {
    hide Holds, MustWall;
    var es' := es[m := one];
    PlainIdempotent(n, m);
    assert forall k | k != m :: Entry(es, k) == Entry(es', k);
    if plan.regular {
      forall s, c | Holds(n, Dir(es'), s, c) ensures Holds(n, Dir(es), s, c) {
        ChildHolds(n, es', es, m, s, c);
      }
      forall s, c | Holds(n, Dir(es), s, c) && MustWall(n, plan.walls, Home(path + s)) ensures Holds(n, Dir(es'), s, c) {
        forall q | Holds(n, es[m], q, c) && s == [Plain(n, m)] + q ensures Holds(n, one, q, c) {
          SameHomeBelow(n, plan.walls, path, Plain(n, m), m, q, q);
        }
        ChildHolds(n, es, es', m, s, c);
      }
    }
  }

  lemma ChildIsToBlame(n: Names, plan: Plan, path: Path, es: map<string, Node>, m: string)
    requires m in es && !Excluded(n, m) && Blame(n, plan, path + [m], es[m])
    ensures Blame(n, plan, path, Dir(es))
  {
    hide MayWall;
    if plan.quiet {
      var s :| Clashing(n, es[m], s) && MayWall(n, plan.walls, Home(path + [m] + s));
      var c, d :| c != d && Holds(n, es[m], s, c) && Holds(n, es[m], s, d);
      HoldsInChild(n, es, m, s, c);
      HoldsInChild(n, es, m, s, d);
      assert Clashing(n, Dir(es), [Plain(n, m)] + s);
      PlainIdempotent(n, m);
      SameHomeBelow(n, plan.walls, path, Plain(n, m), m, s, s);
    }
  }

  lemma HoldsInChild(n: Names, es: map<string, Node>, m: string, s: Path, c: string)
    requires m in es && !Excluded(n, m) && Holds(n, es[m], s, c)
    ensures Holds(n, Dir(es), [Plain(n, m)] + s, c)
  {
    var p :| Canon(n, p) == s && FileAt(es[m], p) == Some(c);
    CanonBelow(n, m, p);
    HoldsAt(n, es, m, p, c);
  }

  /** One turn of the first loop of `repair`. */
  lemma ChildTurn(n: Names, plan: Plan, path: Path, first: Node, es: map<string, Node>, m: string, one: Node, ok: bool)
    requires Fair(n, plan, path, first, Dir(es), true) && m in es && (plan.quiet ==> plan.regular)
    requires (!Excluded(n, m) && Fair(n, plan, path + [m], es[m], one, ok)) || (one == es[m] && ok)
    ensures Fair(n, plan, path, first, Dir(es[m := one]), ok)
  {
    hide Keeps, Blame, InPlan;
    if one == es[m] && ok {
      assert es[m := one] == es;
    } else {
      ChildKeeps(n, plan, path, es, m, one);
      PutInPlan(n, plan, path, es, m, Some(one));
      if !ok {
        ChildIsToBlame(n, plan, path, es, m);
      }
      FairThen(n, plan, path, first, Dir(es), Dir(es[m := one]), ok);
    }
  }

  /** A file under one of the two names of a merge, as seen from their directory. */
  lemma RenamedHolds(n: Names, es: map<string, Node>, es': map<string, Node>, name: string, s: Path, c: string)
    requires !Excluded(n, name) && !Excluded(n, Plain(n, name))
    requires forall k | k != name && k != Plain(n, name) :: Entry(es, k) == Entry(es', k)
    requires Holds(n, Dir(es), s, c)
    requires forall p :: Either(Entry(es, name), Entry(es, Plain(n, name)), p, c) && s == [Plain(n, name)] + Canon(n, p) ==>
      Either(Entry(es', name), Entry(es', Plain(n, name)), p, c)
    ensures Holds(n, Dir(es'), s, c)
  {
    hide Holds, FileAt;
    var plain := Plain(n, name);
    PlainIdempotent(n, name);
    HoldsElsewhere(n, es, es', {name, plain}, s, c);
    if !Holds(n, Dir(es'), s, c) {
      var k, p :| k in {name, plain} && FileIn(Entry(es, k), p) == Some(c) && s == Canon(n, [k] + p);
      CanonBelow(n, name, p);
      CanonBelow(n, plain, p);
      assert Either(Entry(es, name), Entry(es, plain), p, c);
      if FileIn(Entry(es', name), p) == Some(c) {
        HoldsAt(n, es', name, p, c);
      } else {
        HoldsAt(n, es', plain, p, c);
      }
    }
  }

  lemma RenameKeeps(n: Names, plan: Plan, path: Path, es: map<string, Node>, es': map<string, Node>, name: string)
    requires !Excluded(n, name) && !Excluded(n, Plain(n, name))
    requires forall k | k != name && k != Plain(n, name) :: Entry(es, k) == Entry(es', k)
    requires MergeKeeps(plan, path + [Plain(n, name)], Entry(es, name), Entry(es, Plain(n, name)),
                        Entry(es', name), Entry(es', Plain(n, name)))
    ensures Keeps(n, plan, path, Dir(es), Dir(es'))
  {
    hide Holds, MustWall, Either, Walled;
    var plain := Plain(n, name);
    PlainIdempotent(n, name);
    if plan.regular {
      forall s, c | Holds(n, Dir(es'), s, c) ensures Holds(n, Dir(es), s, c) {
        RenamedHolds(n, es', es, name, s, c);
      }
      forall s, c | Holds(n, Dir(es), s, c) && MustWall(n, plan.walls, Home(path + s)) ensures Holds(n, Dir(es'), s, c) {
        forall p | Either(Entry(es, name), Entry(es, plain), p, c) && s == [plain] + Canon(n, p)
          ensures Either(Entry(es', name), Entry(es', plain), p, c)
        {
          CanonIsPlain(n, p);
          SameHomeBelow(n, plan.walls, path, plain, plain, Canon(n, p), p);
          MustIsWalled(n, plan.walls, Home(path + [plain] + p));
        }
        RenamedHolds(n, es, es', name, s, c);
      }
    }
  }

  lemma RenameIsToBlame(n: Names, plan: Plan, path: Path, es: map<string, Node>, name: string)
    requires !Excluded(n, name) && !Excluded(n, Plain(n, name))
    requires MergeBlame(n, plan, path + [Plain(n, name)], Entry(es, name), Entry(es, Plain(n, name)))
    ensures Blame(n, plan, path, Dir(es))
  {
    hide MayWall, Holds;
    var plain := Plain(n, name);
    if plan.quiet {
      var p, c, d :| c != d && FileIn(Entry(es, name), p) == Some(c) && FileIn(Entry(es, plain), p) == Some(d)
        && MayWall(n, plan.walls, Home(path + [plain] + p));
      PlainIdempotent(n, name);
      CanonBelow(n, name, p);
      CanonBelow(n, plain, p);
      HoldsAt(n, es, name, p, c);
      HoldsAt(n, es, plain, p, d);
      assert Clashing(n, Dir(es), [plain] + Canon(n, p));
      CanonIsPlain(n, p);
      SameHomeBelow(n, plan.walls, path, plain, plain, Canon(n, p), p);
    }
  }

  /** What the merge of a name into its plain form means for the directory. */
  lemma RenameIsFair(n: Names, plan: Plan, path: Path, es: map<string, Node>, name: string, left: Option<Node>, one: Node,
                     ok: bool)
    requires Sane(n) && Plain(n, name) != name && InPlan(n, plan, Dir(es), path)
    requires MergeFair(n, plan, path + [Plain(n, name)], Entry(es, name), Entry(es, Plain(n, name)), left, Some(one), ok)
    ensures Fair(n, plan, path, Dir(es), Dir(Put(es, name, left)[Plain(n, name) := one]), ok)
  {
    hide MergeKeeps, Keeps, MergeBlame, Blame, InPlan;
    var plain := Plain(n, name);
    PlainIdempotent(n, name);
    assert !Excluded(n, name) && !Excluded(n, plain);
    var put := Put(es, name, left);
    var es' := put[plain := one];
    assert Entry(es', name) == left && Entry(es', plain) == Some(one);
    RenameKeeps(n, plan, path, es, es', name);
    SamePlace(n, plan, path, left, plain, name);
    PutInPlan(n, plan, path, es, name, left);
    PutInPlan(n, plan, path, put, plain, Some(one));
    if !ok {
      RenameIsToBlame(n, plan, path, es, name);
    }
  }

  lemma SamePlace(n: Names, plan: Plan, path: Path, o: Option<Node>, a: string, b: string)
    requires Plain(n, a) == Plain(n, b) && OptInPlan(n, plan, o, path + [a])
    ensures OptInPlan(n, plan, o, path + [b])
  {
    assert PlainPath(n, path + [a]) == PlainPath(n, path) + [Plain(n, a)] == PlainPath(n, path + [b]);
  }

  // ------------------------------------------------------------ when a run succeeds

  /** Two different files come to one path, in a directory that a file of the quarantine may stand in the way of. */
  ghost predicate MayFail(n: Names, root: Node, q: map<Path, Node>) {
    exists s :: Clashing(n, root, s) && MayWall(n, FilesOf(q), Home(s))
  }

  /** Two different files come to one path, in a directory that a file of the quarantine does stand in the way of. */
  ghost predicate MustFail(n: Names, root: Node, q: map<Path, Node>) {
    exists s :: Clashing(n, root, s) && MustWall(n, FilesOf(q), Home(s))
  }

  /** No file of the quarantine can come to lie at the path of a library directory, but those that are there. */
  ghost predicate Quiet(n: Names, root: Node) {
    NoTypeConflict(n, root) && Unnumbered(n, Files(n, root, []), Dirs(n, root, []))
  }

  ghost function PlanFor(n: Names, root: Node, q: map<Path, Node>): Plan {
    Plan(Files(n, root, []), Dirs(n, root, []), FilesOf(q), NoTypeConflict(n, root), Quiet(n, root))
  }

  lemma PlanIsSound(n: Names, root: Node, q: map<Path, Node>)
    ensures Calm(n, PlanFor(n, root, q), q) && InPlan(n, PlanFor(n, root, q), root, [])
  {
    DirsPrefixClosed(n, root);
    assert PlainPath(n, []) == [];
  }

  lemma TidyIsClashless(n: Names, dir: Node, s: Path)
    requires dir.Dir? && Tidy(n, dir)
    ensures !Clashing(n, dir, s)
  {
    forall p, c | Canon(n, p) == s && FileAt(dir, p) == Some(c) ensures p == s {
      TidyIsCanonical(n, dir, p);
    }
  }

  /** Whatever was under a wall before a run is there afterwards, so the run did not succeed and the next cannot. */
  lemma StillFails(n: Names, root: Node, fixed: Node, q: map<Path, Node>, q': map<Path, Node>)
    requires NoTypeConflict(n, root) && MustFail(n, root, q)
    requires InPlan(n, PlanFor(n, root, q), fixed, []) && Keeps(n, PlanFor(n, root, q), [], root, fixed)
    requires FilesOf(q) <= FilesOf(q')
    ensures NoTypeConflict(n, fixed) && MustFail(n, fixed, q')
    ensures fixed.Dir? ==> !Tidy(n, fixed)
  {
    hide Holds;
    var s :| Clashing(n, root, s) && MustWall(n, FilesOf(q), Home(s));
    assert [] + s == s;
    assert Clashing(n, fixed, s);
    assert MustWall(n, FilesOf(q'), Home(s));
    assert PlainPath(n, []) == [];
    if fixed.Dir? && Tidy(n, fixed) {
      TidyIsClashless(n, fixed, s);
    }
  }

  /** A failure is to blame on what could be seen before the run. */
  lemma BlameIsKnown(n: Names, root: Node, q: map<Path, Node>)
    requires Quiet(n, root) && Blame(n, PlanFor(n, root, q), [], root)
    ensures MayFail(n, root, q)
  {
    hide Clashing, MayWall;
    var s :| Clashing(n, root, s) && MayWall(n, FilesOf(q), Home([] + s));
    assert [] + s == s;
  }

  /** When the quarantine's files have no apostrophes the two conditions are one. */
  lemma UnmarkedWallsAreCertain(n: Names, root: Node, q: map<Path, Node>)
    requires forall f | f in FilesOf(q) :: Unmarked(n, f)
    ensures MayFail(n, root, q) <==> MustFail(n, root, q)
  {
    hide Clashing;
    forall f | f in FilesOf(q) ensures PlainPath(n, f) == f {
      forall i | 0 <= i < |f| ensures Plain(n, f[i]) == f[i] {
        assert f[i] in f;
        forall j | 0 <= j < |f[i]| ensures f[i][j] !in n.marks {
          assert f[i][j] in f[i];
        }
      }
    }
    forall d ensures MayWall(n, FilesOf(q), d) == MustWall(n, FilesOf(q), d) {
    }
  }
}
