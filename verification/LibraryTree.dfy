/** Directory trees with files of some content, and how many files of one content a tree holds. */
module LibraryTree {
  import opened Outcomes

  datatype Node = File(content: string) | Dir(entries: map<string, Node>)

  type Path = seq<string>

  /** How many files below `node` have this content. */
  ghost function Tally(node: Node, content: string): nat
    decreases node, 1, 0
  {
    match node
    case File(c) => if c == content then 1 else 0
    case Dir(es) => TallyOver(node, es.Keys, content)
  }

  ghost function TallyOver(dir: Node, names: set<string>, content: string): nat
    requires dir.Dir? && names <= dir.entries.Keys
    decreases dir, 0, |names|
  {
    if names == {} then 0 else
    var n :| n in names;
    Tally(dir.entries[n], content) + TallyOver(dir, names - {n}, content)
  }

  lemma {:induction false} TallySame(a: Node, b: Node, names: set<string>, content: string)
    requires a.Dir? && b.Dir? && names <= a.entries.Keys && names <= b.entries.Keys
    requires forall n | n in names :: a.entries[n] == b.entries[n]
    ensures TallyOver(a, names, content) == TallyOver(b, names, content)
    decreases |names|
  {
    if names != {} {
      var n :| n in names && TallyOver(a, names, content)
        == Tally(a.entries[n], content) + TallyOver(a, names - {n}, content);
      TallyOut(b, names, n, content);
      TallySame(a, b, names - {n}, content);
    }
  }

  lemma {:induction false} TallyOut(dir: Node, names: set<string>, k: string, content: string)
    requires dir.Dir? && k in names && names <= dir.entries.Keys
    ensures TallyOver(dir, names, content) == Tally(dir.entries[k], content) + TallyOver(dir, names - {k}, content)
    decreases |names|
  {
    var n :| n in names && TallyOver(dir, names, content)
      == Tally(dir.entries[n], content) + TallyOver(dir, names - {n}, content);
    if n != k {
      TallyOut(dir, names - {n}, k, content);
      TallyOut(dir, names - {k}, n, content);
      assert names - {n} - {k} == names - {k} - {n};
    }
  }

  /** Taking one entry out of a directory takes out its files. */
  lemma TallyRemove(es: map<string, Node>, k: string, content: string)
    requires k in es
    ensures Tally(Dir(es), content) == Tally(es[k], content) + Tally(Dir(es - {k}), content)
  {
    TallyOut(Dir(es), es.Keys, k, content);
    assert es.Keys - {k} == (es - {k}).Keys;
    TallySame(Dir(es), Dir(es - {k}), es.Keys - {k}, content);
  }

  lemma TallyPut(es: map<string, Node>, k: string, node: Node, content: string)
    ensures Tally(Dir(es[k := node]), content) == Tally(node, content) + Tally(Dir(es - {k}), content)
  {
    TallyRemove(es[k := node], k, content);
    assert es[k := node] - {k} == es - {k};
  }

  // ------------------------------------------------------------ single entries and single files

  function Entry(es: map<string, Node>, name: string): Option<Node> {
    if name in es then Some(es[name]) else None
  }

  /** The entry of this name becomes `o`, or goes. */
  function Put(es: map<string, Node>, name: string, o: Option<Node>): map<string, Node> {
    if o.Some? then es[name := o.value] else es - {name}
  }

  ghost function OptTally(o: Option<Node>, content: string): nat {
    if o.Some? then Tally(o.value, content) else 0
  }

  lemma TallyEntry(es: map<string, Node>, k: string, content: string)
    ensures Tally(Dir(es), content) == OptTally(Entry(es, k), content) + Tally(Dir(es - {k}), content)
  {
    if k in es {
      TallyRemove(es, k, content);
    } else {
      assert es - {k} == es;
    }
  }

  lemma TallyPutOpt(es: map<string, Node>, k: string, o: Option<Node>, content: string)
    ensures Tally(Dir(Put(es, k, o)), content) == OptTally(o, content) + Tally(Dir(es - {k}), content)
  {
    if o.Some? {
      TallyPut(es, k, o.value, content);
    }
  }

  /** The content of the file at a path. */
  function FileAt(node: Node, p: Path): Option<string>
    decreases p
  {
    match node
    case File(c) => if p == [] then Some(c) else None
    case Dir(es) => if p != [] && p[0] in es then FileAt(es[p[0]], p[1..]) else None
  }

  function FileIn(o: Option<Node>, p: Path): Option<string> {
    if o.Some? then FileAt(o.value, p) else None
  }

  /** The directory a path is in. */
  function Home(p: Path): Path {
    if p == [] then [] else p[..|p| - 1]
  }

  // ------------------------------------------------------------ a place things are moved to

  /** How many files of one content lie below the stored paths. */
  ghost function Stored(q: map<Path, Node>, content: string): nat
    decreases |q|
  {
    if q == map[] then 0 else
    var p :| p in q;
    Tally(q[p], content) + Stored(q - {p}, content)
  }

  lemma {:induction false} StoredRemove(q: map<Path, Node>, k: Path, content: string)
    requires k in q
    ensures Stored(q, content) == Tally(q[k], content) + Stored(q - {k}, content)
    decreases |q|
  {
    var p :| p in q && Stored(q, content) == Tally(q[p], content) + Stored(q - {p}, content);
    if p != k {
      StoredRemove(q - {p}, k, content);
      StoredRemove(q - {k}, p, content);
      assert q - {p} - {k} == q - {k} - {p};
    }
  }

  lemma StoredPut(q: map<Path, Node>, k: Path, node: Node, content: string)
    requires k !in q
    ensures Stored(q[k := node], content) == Tally(node, content) + Stored(q, content)
  {
    StoredRemove(q[k := node], k, content);
    assert q[k := node] - {k} == q;
  }

  /** The paths from a node down. */
  function Below(node: Node): set<Path> {
    match node
    case File(_) => {[]}
    case Dir(es) => {[]} + set n, p | n in es && p in Below(es[n]) :: [n] + p
  }

  /** Every path that exists: above, at and below what is stored. */
  function Taken(q: map<Path, Node>): set<Path> {
    (set r, i | r in q && 0 <= i <= |r| :: r[..i]) + set r, p | r in q && p in Below(q[r]) :: r + p
  }

  lemma StoredIsTaken(q: map<Path, Node>, p: Path)
    requires p in q
    ensures p in Taken(q)
  {
    assert p[..|p|] == p;
  }

  // ------------------------------------------------------------ directories that cannot be made

  /** The paths of the files from a node down. */
  function FilePaths(node: Node): set<Path> {
    match node
    case File(_) => {[]}
    case Dir(es) => set n, p | n in es && p in FilePaths(es[n]) :: [n] + p
  }

  function FilesOf(q: map<Path, Node>): set<Path> {
    set r, p | r in q && p in FilePaths(q[r]) :: r + p
  }

  /** `mkdir(parents=True)` on the directory `d` meets a file: at `d` or on the way. */
  predicate Walled(files: set<Path>, d: Path) {
    exists i | 0 <= i <= |d| :: d[..i] in files
  }

  lemma FilesGrow(q: map<Path, Node>, free: Path, node: Node)
    requires free !in q
    ensures FilesOf(q) <= FilesOf(q[free := node])
    ensures node.File? ==> FilesOf(q[free := node]) == FilesOf(q) + {free}
  {
    var more := q[free := node];
    forall r, p | r in q && p in FilePaths(q[r]) ensures r + p in FilesOf(more) {
      assert r in more && more[r] == q[r];
    }
    if node.File? {
      assert FilePaths(node) == {[]};
      assert free in more && [] in FilePaths(more[free]) && free + [] == free;
      forall x | x in FilesOf(more) ensures x in FilesOf(q) + {free} {
        var r, p :| r in more && p in FilePaths(more[r]) && x == r + p;
        assert r != free ==> r in q && q[r] == more[r];
      }
    }
  }

  // ------------------------------------------------------------ which paths exist

  /** The node has something at the path. */
  predicate Reaches(node: Node, p: Path)
    decreases p
  {
    p == [] || (node.Dir? && p[0] in node.entries && Reaches(node.entries[p[0]], p[1..]))
  }

  lemma {:induction false} BelowExactly(node: Node, p: Path)
    ensures p in Below(node) <==> Reaches(node, p)
    decreases p
  {
    if p != [] {
      assert p == [p[0]] + p[1..];
      forall n, r | p == [n] + r ensures n == p[0] && r == p[1..] {
        assert ([n] + r)[1..] == r;
      }
      if node.Dir? && p[0] in node.entries {
        BelowExactly(node.entries[p[0]], p[1..]);
      }
    }
  }

  lemma {:induction false} FilePathsExactly(node: Node, p: Path)
    ensures p in FilePaths(node) <==> FileAt(node, p).Some?
    decreases p
  {
    if p != [] {
      assert p == [p[0]] + p[1..];
      forall n, r | p == [n] + r ensures n == p[0] && r == p[1..] {
        assert ([n] + r)[1..] == r;
      }
      if node.Dir? && p[0] in node.entries {
        FilePathsExactly(node.entries[p[0]], p[1..]);
      }
    }
  }

  /** A path of the quarantine is taken exactly when a stored node is at it or below it, or the node stored above it has
      something there; and it is a file's exactly when the node stored at it or above it has a file there. */
  lemma TakenExactly(q: map<Path, Node>, p: Path)
    ensures p in Taken(q) <==> exists r :: r in q && (p <= r || (r <= p && Reaches(q[r], p[|r|..])))
    ensures p in FilesOf(q) <==> exists r :: r in q && r <= p && FileAt(q[r], p[|r|..]).Some?
  {
    forall r | r in q ensures p <= r <==> exists i :: 0 <= i <= |r| && p == r[..i] {
      if p <= r {
        assert p == r[..|p|];
      }
    }
    forall r | r in q && r <= p
      ensures Reaches(q[r], p[|r|..]) <==> exists s :: s in Below(q[r]) && p == r + s
      ensures FileAt(q[r], p[|r|..]).Some? <==> exists s :: s in FilePaths(q[r]) && p == r + s
    {
      var rest := p[|r|..];
      BelowExactly(q[r], rest);
      FilePathsExactly(q[r], rest);
      assert p == r + rest;
      forall s | p == r + s ensures s == rest {
      }
    }
    forall r, s | r in q && p == r + s ensures r <= p {
    }
  }
}
