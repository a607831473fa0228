/** Names with plain apostrophes: `normalize_apostrophes` in comic_automation/series_resolver.py, on names, paths and trees. */
module PlainNames {
  import opened LibraryTree

  /** `marks` are the characters made plain; `split` parts a file name into stem and suffix. */
  datatype Names = Names(marks: set<char>, fold: string -> string, excluded: set<string>, split: string -> (string, string))

  /** `normalize_apostrophes` */
  function Plain(n: Names, s: string): (t: string)
    ensures |t| == |s| && forall i | 0 <= i < |s| :: t[i] == if s[i] in n.marks then '\'' else s[i]
  {
    seq(|s|, i requires 0 <= i < |s| => if s[i] in n.marks then '\'' else s[i])
  }

  predicate Excluded(n: Names, name: string) {
    n.fold(name) in n.excluded
  }

  /** Excluded names have no apostrophe of any kind, also when folded. */
  ghost predicate Sane(n: Names) {
    forall name | Excluded(n, name) || Excluded(n, Plain(n, name)) :: Plain(n, name) == name
  }

  lemma PlainIdempotent(n: Names, s: string)
    ensures Plain(n, Plain(n, s)) == Plain(n, s)
  {
  }

  /** Every name below the directory is plain, down to excluded directories. */
  predicate Tidy(n: Names, dir: Node)
    requires dir.Dir?
  {
    forall name | name in dir.entries ::
      Plain(n, name) == name && (dir.entries[name].Dir? && !Excluded(n, name) ==> Tidy(n, dir.entries[name]))
  }

  /** The entry needs nothing below it. */
  predicate TidyUnder(n: Names, name: string, node: Node) {
    node.Dir? && !Excluded(n, name) ==> Tidy(n, node)
  }

  predicate EntryTidy(n: Names, name: string, node: Node) {
    Plain(n, name) == name && TidyUnder(n, name, node)
  }

  /** The last name of every path is not plain. */
  predicate AllMarked(n: Names, paths: seq<Path>) {
    forall p | p in paths :: p != [] && Plain(n, p[|p| - 1]) != p[|p| - 1]
  }

  predicate AllPlain(n: Names, all: set<string>) {
    forall name | name in all :: Plain(n, name) == name
  }

  lemma OneNameMore(n: Names, all: set<string>, rest: set<string>, name: string)
    requires name in rest && rest <= all
    ensures AllPlain(n, all - (rest - {name})) <==> AllPlain(n, all - rest) && Plain(n, name) == name
    ensures AllPlain(n, all) ==> Plain(n, name) == name
  {
    assert all - (rest - {name}) == all - rest + {name};
  }

  /** The names of a directory when those of `rest` are still as they were. */
  function NamesAfter(n: Names, all: set<string>, rest: set<string>): set<string> {
    set name | name in all :: if name in rest then name else Plain(n, name)
  }

  lemma NamesBefore(n: Names, all: set<string>)
    ensures NamesAfter(n, all, all) == all && AllPlain(n, {})
  {
  }

  lemma NameStep(n: Names, all: set<string>, rest: set<string>, name: string)
    requires name in rest && rest <= all
    ensures NamesAfter(n, all, rest - {name}) ==
      if Plain(n, name) == name then NamesAfter(n, all, rest)
      else NamesAfter(n, all, rest) - {name} + {Plain(n, name)}
    ensures name in NamesAfter(n, all, rest)
  {
    assert name in all;
    forall other | other in all ensures Plain(n, name) != name ==> Plain(n, other) != name {
      PlainIdempotent(n, other);
    }
    forall x | x in NamesAfter(n, all, rest) - {name} ensures x in NamesAfter(n, all, rest - {name}) {
      var m :| m in all && x == (if m in rest then m else Plain(n, m));
      assert x == if m in rest - {name} then m else Plain(n, m);
    }
    assert Plain(n, name) in NamesAfter(n, all, rest - {name});
  }

  /** Names still to come are there, and only those may be other than plain. */
  lemma NamesLeft(n: Names, all: set<string>, rest: set<string>, name: string)
    requires rest <= all
    ensures name in rest ==> name in NamesAfter(n, all, rest)
    ensures name in NamesAfter(n, all, rest) && Plain(n, name) != name ==> name in rest
  {
    forall other | other in all ensures Plain(n, Plain(n, other)) == Plain(n, other) {
      PlainIdempotent(n, other);
    }
  }

  // ------------------------------------------------------------ paths

  function PlainPath(n: Names, p: Path): (q: Path)
    ensures |q| == |p| && forall i | 0 <= i < |p| :: q[i] == Plain(n, p[i])
  {
    seq(|p|, i requires 0 <= i < |p| => Plain(n, p[i]))
  }

  /** Where repairing and merging can bring a file: names become plain, down to an excluded directory. */
  function Canon(n: Names, p: Path): Path {
    if p == [] then [] else [Plain(n, p[0])] + if Excluded(n, p[0]) then p[1..] else Canon(n, p[1..])
  }

  lemma {:induction false} CanonIsPlain(n: Names, p: Path)
    ensures PlainPath(n, Canon(n, p)) == PlainPath(n, p)
  {
    if p != [] {
      PlainIdempotent(n, p[0]);
      CanonIsPlain(n, p[1..]);
      var c := Canon(n, p);
      var tail := if Excluded(n, p[0]) then p[1..] else Canon(n, p[1..]);
      assert c[1..] == tail && PlainPath(n, c)[1..] == PlainPath(n, tail) == PlainPath(n, p[1..]) == PlainPath(n, p)[1..];
      assert PlainPath(n, c) == [PlainPath(n, c)[0]] + PlainPath(n, c)[1..];
      assert PlainPath(n, p) == [PlainPath(n, p)[0]] + PlainPath(n, p)[1..];
    }
  }

  /** In a tidy directory every file is where it can be brought. */
  lemma {:induction false} TidyIsCanonical(n: Names, dir: Node, p: Path)
    requires dir.Dir? && Tidy(n, dir) && FileAt(dir, p).Some?
    ensures Canon(n, p) == p
    decreases p
  {
    var child := dir.entries[p[0]];
    assert p == [p[0]] + p[1..];
    if !Excluded(n, p[0]) {
      match child
      case File(_) => assert p[1..] == [];
      case Dir(_) => TidyIsCanonical(n, child, p[1..]);
    }
  }
}
