/**
 Making apostrophes in a library's names plain and merging the names that collide: `normalize_apostrophe_names`
 and `settle_file_conflict` in comic_automation/series_resolver.py. No content is lost, also by a run that fails because a
 file of the quarantine stands where a directory is needed. A run that does not fail makes every name plain, and a second
 run finds nothing to do.
 */
module ApostropheMerge {
  import opened Outcomes
  import opened LibraryTree
  import opened PlainNames
  import opened QuarantinePaths

  datatype Action =
    | NormalizedName
    | MergedDirectory
    | DeletedDuplicate(content: string)
    | KeptLargerIncoming
    | KeptLargerExisting
    | TypeConflict

  /** How many files of one content were deleted as exact duplicates. */
  function Deleted(actions: seq<Action>, content: string): nat {
    if actions == [] then 0 else
    Deleted(actions[..|actions| - 1], content) + if actions[|actions| - 1] == DeletedDuplicate(content) then 1 else 0
  }

  lemma DeletedMore(actions: seq<Action>, a: Action, content: string)
    ensures Deleted(actions + [a], content) == Deleted(actions, content) + if a == DeletedDuplicate(content) then 1 else 0
  {
  }

  /** The files of one content in a library part and the quarantine, before and after: only duplicates are gone, and a
      content that was there still is. */
  predicate Conserved(partBefore: nat, storedBefore: nat, deletedBefore: nat, partAfter: nat, storedAfter: nat,
                      deletedAfter: nat) {
    && partAfter + storedAfter + deletedAfter == partBefore + storedBefore + deletedBefore
    && (partBefore + storedBefore > 0 ==> partAfter + storedAfter > 0)
  }

  lemma ConservedThen(part: nat, stored: nat, deleted: nat, part1: nat, stored1: nat, deleted1: nat,
                      part2: nat, stored2: nat, deleted2: nat)
    requires Conserved(part, stored, deleted, part1, stored1, deleted1)
    requires Conserved(part1, stored1, deleted1, part2, stored2, deleted2)
    ensures Conserved(part, stored, deleted, part2, stored2, deleted2)
  {
  }

  /** What merging an entry into its target makes of the target: directories merge entry by entry, the larger of two files
      stays, and an entry of another type gives way. */
  function Merged(source: Node, target: Option<Node>): Node
    decreases source
  {
    match target
    case None => source
    case Some(File(c)) => if source.File? && |source.content| > |c| then source else target.value
    case Some(Dir(es)) =>
      if source.File? then target.value else
      Dir(map n | n in source.entries.Keys + es.Keys ::
            if n in source.entries then Merged(source.entries[n], Entry(es, n)) else es[n])
  }

  /** The target's entries while the source's entries `rest` are still to come. */
  function MergedSoFar(source: Node, target: Node, rest: set<string>): map<string, Node>
    requires source.Dir? && target.Dir?
  {
    map n | n in target.entries.Keys + (source.entries.Keys - rest) ::
      if n in source.entries && n !in rest then Merged(source.entries[n], Entry(target.entries, n)) else target.entries[n]
  }

  lemma MergeStep(source: Node, target: Node, rest: set<string>, n: string)
    requires source.Dir? && target.Dir? && n in rest && rest <= source.entries.Keys
    ensures Entry(MergedSoFar(source, target, rest), n) == Entry(target.entries, n)
    ensures MergedSoFar(source, target, rest - {n})
      == MergedSoFar(source, target, rest)[n := Merged(source.entries[n], Entry(target.entries, n))]
  {
  }

  lemma MergeStarts(source: Node, target: Node)
    requires source.Dir? && target.Dir?
    ensures MergedSoFar(source, target, source.entries.Keys) == target.entries
  {
    var m := MergedSoFar(source, target, source.entries.Keys);
    assert m.Keys == target.entries.Keys;
  }

  /** Two maps with one domain and the merged entry at every name are the same. */
  predicate AllMerged(source: map<string, Node>, target: map<string, Node>, all: map<string, Node>) {
    && all.Keys == target.Keys + source.Keys
    && forall n | n in all :: all[n] == if n in source then Merged(source[n], Entry(target, n)) else target[n]
  }

  lemma WholeIsMerged(source: Node, target: Node)
    requires source.Dir? && target.Dir?
    ensures Merged(source, Some(target)).Dir?
    ensures AllMerged(source.entries, target.entries, Merged(source, Some(target)).entries)
  {
  }

  lemma NothingLeftIsMerged(source: Node, target: Node)
    requires source.Dir? && target.Dir?
    ensures AllMerged(source.entries, target.entries, MergedSoFar(source, target, {}))
  {
    hide Merged;
  }

  lemma MergedOnce(source: map<string, Node>, target: map<string, Node>, x: map<string, Node>, y: map<string, Node>)
    requires AllMerged(source, target, x) && AllMerged(source, target, y)
    ensures x == y
  {
    hide Merged;
  }

  lemma MergeEnds(source: Node, target: Node)
    requires source.Dir? && target.Dir?
    ensures Dir(MergedSoFar(source, target, {})) == Merged(source, Some(target))
  {
    hide Merged, MergedSoFar, AllMerged;
    WholeIsMerged(source, target);
    NothingLeftIsMerged(source, target);
    MergedOnce(source.entries, target.entries, MergedSoFar(source, target, {}), Merged(source, Some(target)).entries);
  }

  /** Tidy parts merge into a tidy whole. */
  lemma {:induction false} MergedIsTidy(n: Names, name: string, source: Node, target: Option<Node>)
    requires TidyUnder(n, name, source) && (target.Some? ==> TidyUnder(n, name, target.value))
    ensures TidyUnder(n, name, Merged(source, target))
    decreases source
  {
    if source.Dir? && target.Some? && target.value.Dir? && !Excluded(n, name) {
      var es := target.value.entries;
      forall m | m in source.entries ensures TidyUnder(n, m, Merged(source.entries[m], Entry(es, m))) {
        MergedIsTidy(n, m, source.entries[m], Entry(es, m));
      }
    }
  }

  // ------------------------------------------------------------ the run

  /** Nothing is to be listed for the entries of these names. */
  predicate PlainAt(n: Names, es: map<string, Node>, done: set<string>)
    requires done <= es.Keys
  {
    forall m | m in done :: EntryTidy(n, m, es[m])
  }

  lemma PlainThroughout(n: Names, dir: Node)
    requires dir.Dir?
    ensures PlainAt(n, dir.entries, dir.entries.Keys) <==> Tidy(n, dir)
  {
    assert forall m | m in dir.entries :: EntryTidy(n, m, dir.entries[m]) <==>
      Plain(n, m) == m && (dir.entries[m].Dir? && !Excluded(n, m) ==> Tidy(n, dir.entries[m]));
  }

  /** The entries of these names need nothing below them. */
  predicate TidyAt(n: Names, es: map<string, Node>, done: set<string>) {
    done <= es.Keys && forall m | m in done :: TidyUnder(n, m, es[m])
  }

  /** The first loop of `repair` when the names of `rest` are still to come. */
  predicate Repairing(n: Names, first: map<string, Node>, es: map<string, Node>, rest: set<string>, done: set<string>) {
    && rest + done == first.Keys == es.Keys && rest !! done
    && (forall m | m in rest :: es[m] == first[m])
    && TidyAt(n, es, done)
  }

  lemma NothingRepaired(n: Names, es: map<string, Node>)
    ensures Repairing(n, es, es, es.Keys, {}) && TidyAt(n, es, {})
  {
  }

  lemma RepairedOneMore(n: Names, first: map<string, Node>, es: map<string, Node>, rest: set<string>, done: set<string>,
                        m: string, one: Node)
    requires Repairing(n, first, es, rest, done) && m in rest && TidyUnder(n, m, one)
    ensures Repairing(n, first, es[m := one], rest - {m}, done + {m})
    ensures TidyAt(n, first, done + {m}) <==> TidyAt(n, first, done) && TidyUnder(n, m, first[m])
    ensures TidyAt(n, first, done) && one == first[m] && es == first ==> es[m := one] == first
  {
    hide TidyUnder;
  }

  lemma NothingMoved(part: nat, stored: nat, deleted: nat)
    ensures Conserved(part, stored, deleted, part, stored, deleted)
  {
  }

  lemma EmptyTally(content: string)
    ensures Tally(Dir(map[]), content) == 0
  {
  }

  /** What is left of these entries is as it was. */
  predicate Waiting(rest: map<string, Node>, all: map<string, Node>) {
    rest.Keys <= all.Keys && forall m | m in rest :: rest[m] == all[m]
  }

  lemma FairInPlan(n: Names, plan: Plan, path: Path, a: Node, b: Node)
    requires Fair(n, plan, path, a, b, true)
    ensures InPlan(n, plan, b, path)
  {
  }

  /** Two entries of a directory and the rest of it. */
  lemma TallyTwo(es: map<string, Node>, m: string, k: string, all: map<string, Node>, content: string)
    requires m != k && es - {m, k} == all - {m, k}
    ensures Tally(Dir(es), content)
      == OptTally(Entry(es, m), content) + OptTally(Entry(es, k), content) + Tally(Dir(all - {m, k}), content)
  {
    TallyEntry(es, m, content);
    TallyEntry(es - {m}, k, content);
    assert es - {m} - {k} == all - {m, k};
  }

  /** What a run that leaves `fixed` and is fair says about the library and quarantine before it. */
  lemma WhatFairMeans(n: Names, root: Node, fixed: Node, before: map<Path, Node>, after: map<Path, Node>, ok: bool)
    requires Fair(n, PlanFor(n, root, before), [], root, fixed, ok) && FilesOf(before) <= FilesOf(after)
    requires fixed.Dir? && (ok ==> Tidy(n, fixed))
    ensures Quiet(n, root) && !MayFail(n, root, before) ==> ok
    ensures Quiet(n, root) && (forall f | f in FilesOf(before) :: Unmarked(n, f)) ==> (ok <==> !MayFail(n, root, before))
    ensures NoTypeConflict(n, root) && MustFail(n, root, before) ==>
      !ok && NoTypeConflict(n, fixed) && MustFail(n, fixed, after)
  {
    hide MayFail, MustFail, NoTypeConflict, Unnumbered, Keeps, Blame, FilesOf, Unmarked;
    if forall f | f in FilesOf(before) :: Unmarked(n, f) {
      UnmarkedWallsAreCertain(n, root, before);
    }
    if !ok && Quiet(n, root) {
      BlameIsKnown(n, root, before);
    }
    if NoTypeConflict(n, root) && MustFail(n, root, before) {
      StillFails(n, root, fixed, before, after);
    }
  }

  lemma MustFailIsUntidy(n: Names, dir: Node, q: map<Path, Node>)
    requires dir.Dir? && MustFail(n, dir, q)
    ensures !Tidy(n, dir)
  {
    hide Clashing;
    var s :| Clashing(n, dir, s) && MustWall(n, FilesOf(q), Home(s));
    if Tidy(n, dir) {
      TidyIsClashless(n, dir, s);
    }
  }

  lemma QuietIsRegular(n: Names, plan: Plan, q: map<Path, Node>)
    requires Calm(n, plan, q)
    ensures plan.quiet ==> plan.regular
  {
  }

  /** The loop that merges directories: what it has done so far is as specified and fair. */
  ghost predicate Merging(n: Names, plan: Plan, path: Path, source: Node, target: Node, rest: map<string, Node>,
                          entries: map<string, Node>)
    requires source.Dir? && target.Dir?
  {
    && Waiting(rest, source.entries) && entries == MergedSoFar(source, target, rest.Keys)
    && MergeFair(n, plan, path, Some(source), Some(target), Some(Dir(rest)), Some(Dir(entries)), true)
  }

  lemma MergingStarts(n: Names, plan: Plan, path: Path, source: Node, target: Node)
    requires source.Dir? && target.Dir? && InPlan(n, plan, source, path) && InPlan(n, plan, target, path)
    ensures Merging(n, plan, path, source, target, source.entries, target.entries)
  {
    hide InPlan, MergeFair, MergedSoFar;
    MergeStarts(source, target);
    NothingIsFair(n, plan, path, Some(source), Some(target), true);
  }

  lemma MergingInPlan(n: Names, plan: Plan, path: Path, source: Node, target: Node, rest: map<string, Node>,
                      entries: map<string, Node>)
    requires source.Dir? && target.Dir? && Merging(n, plan, path, source, target, rest, entries)
    ensures InPlan(n, plan, Dir(rest), path) && InPlan(n, plan, Dir(entries), path)
    ensures forall m | m in rest :: m in source.entries && rest[m] == source.entries[m]
  {
    hide InPlan, MergeKeeps, MergedSoFar;
  }

  lemma MergingOn(n: Names, plan: Plan, path: Path, source: Node, target: Node, rest: map<string, Node>,
                  entries: map<string, Node>, m: string, rest': map<string, Node>, entries': map<string, Node>, ok: bool)
    requires source.Dir? && target.Dir? && Merging(n, plan, path, source, target, rest, entries) && m in rest
    requires MergeFair(n, plan, path, Some(Dir(rest)), Some(Dir(entries)), Some(Dir(rest')), Some(Dir(entries')), ok)
    requires ok ==> rest' == rest - {m} && entries' == entries[m := Merged(rest[m], Entry(entries, m))]
    requires plan.quiet ==> plan.regular
    ensures MergeFair(n, plan, path, Some(source), Some(target), Some(Dir(rest')), Some(Dir(entries')), ok)
    ensures ok ==> Merging(n, plan, path, source, target, rest', entries') && |rest'| < |rest|
  {
    hide MergeFair, MergedSoFar, Merged;
    MergeFairThen(n, plan, path, Some(source), Some(target), Some(Dir(rest)), Some(Dir(entries)), Some(Dir(rest')),
                  Some(Dir(entries')), ok);
    if ok {
      MergeStep(source, target, rest.Keys, m);
      assert rest'.Keys == rest.Keys - {m};
    }
  }

  lemma MergingEnds(n: Names, plan: Plan, path: Path, source: Node, target: Node, entries: map<string, Node>)
    requires source.Dir? && target.Dir? && Merging(n, plan, path, source, target, map[], entries)
    ensures Dir(entries) == Merged(source, Some(target))
    ensures MergeFair(n, plan, path, Some(source), Some(target), Some(Dir(map[])), Some(Dir(entries)), true)
  {
    hide MergeFair, MergedSoFar, Merged;
    MergeEnds(source, target);
    var nothing: map<string, Node> := map[];
    assert nothing.Keys == {};
  }

  lemma FileIsKnown(n: Names, plan: Plan, path: Path, node: Node)
    requires node.File? && InPlan(n, plan, node, path)
    ensures PlainPath(n, path) in plan.files
  {
  }

  lemma WallsAreFiles(n: Names, plan: Plan, q: map<Path, Node>, d: Path)
    requires Calm(n, plan, q) && !Walled(FilesOf(q), d)
    ensures !Walled(plan.walls, d)
  {
  }

  class Run {
    const names: Names
    var quarantine: map<Path, Node>
    var actions: seq<Action>

    constructor (names: Names, quarantine: map<Path, Node>)
      ensures this.names == names && this.quarantine == quarantine && actions == []
    {
      this.names, this.quarantine, actions := names, quarantine, [];
    }

    method Record(a: Action)
      modifies this`actions
      ensures actions == old(actions) + [a]
      ensures forall content ::
        Deleted(actions, content) == old(Deleted(actions, content)) + (if a == DeletedDuplicate(content) then 1 else 0)
    {
      forall content ensures Deleted(actions + [a], content)
        == Deleted(actions, content) + (if a == DeletedDuplicate(content) then 1 else 0)
      {
        DeletedMore(actions, a, content);
      }
      actions := actions + [a];
    }

    /** `mkdir` of the directory and `shutil.move` to a free path in it; `mkdir` raises when it meets a file. */
    method Quarantine(node: Node, path: Path, ghost plan: Plan, ghost content: string) returns (ok: bool)
      requires path != [] && Calm(names, plan, quarantine)
      requires plan.quiet ==> node.File? && PlainPath(names, path) in plan.files
      modifies this`quarantine
      ensures ok <==> !Walled(FilesOf(old(quarantine)), Home(path))
      ensures !ok ==> quarantine == old(quarantine)
      ensures ok ==> Stored(quarantine, content) == old(Stored(quarantine, content)) + Tally(node, content)
      ensures ok ==> Filed(names, old(quarantine), quarantine, path, node)
      ensures Calm(names, plan, quarantine) && FilesOf(old(quarantine)) <= FilesOf(quarantine)
    {
      hide Calm, Taken, Tried;
      if Walled(FilesOf(quarantine), Home(path)) {
        return false;
      }
      var free := UniquePath(names, Taken(quarantine), path);
      if free in quarantine {
        StoredIsTaken(quarantine, free);
      }
      StoredPut(quarantine, free, node, content);
      StaysCalm(names, plan, quarantine, path, free, node);
      FilesGrow(quarantine, free, node);
      quarantine := quarantine[free := node];
      ok := true;
    }

    /** `settle_file_conflict`: the larger of two different files stays, and equal files become one. */
    method SettleFileConflict(incoming: Node, existing: Node, path: Path, ghost plan: Plan, ghost content: string)
      returns (left: Option<Node>, kept: Node, ok: bool)
      requires incoming.File? && existing.File? && path != [] && Calm(names, plan, quarantine)
      requires InPlan(names, plan, incoming, path) && InPlan(names, plan, existing, path)
      requires PlainPath(names, Home(path)) in plan.dirs
      modifies this
      ensures ok <==> incoming == existing || !Walled(FilesOf(old(quarantine)), Home(path))
      ensures ok ==> left == None && kept == Merged(incoming, Some(existing))
      ensures !ok ==> left == Some(incoming) && kept == existing && quarantine == old(quarantine) && actions == old(actions)
      ensures Conserved(Tally(incoming, content) + Tally(existing, content), old(Stored(quarantine, content)),
                        old(Deleted(actions, content)),
                        OptTally(left, content) + Tally(kept, content), Stored(quarantine, content),
                        Deleted(actions, content))
      ensures kept == incoming || kept == existing
      ensures ok && incoming != existing ==> (kept == incoming <==> |incoming.content| > |existing.content|)
      ensures incoming == existing ==> actions == old(actions) + [DeletedDuplicate(incoming.content)]
      ensures ok && incoming != existing ==>
        actions == old(actions) + [if kept == incoming then KeptLargerIncoming else KeptLargerExisting]
      ensures ok && incoming != existing ==>
        Filed(names, old(quarantine), quarantine, path, if kept == incoming then existing else incoming)
      ensures Calm(names, plan, quarantine) && FilesOf(old(quarantine)) <= FilesOf(quarantine)
      ensures MergeFair(names, plan, path, Some(incoming), Some(existing), left, Some(kept), ok)
    {
      hide MergeFair, Walled, Filed, FilesOf, Stored, Calm, InPlan, Deleted;
      FileIsKnown(names, plan, path, incoming);
      FileIsKnown(names, plan, path, existing);
      if |incoming.content| == |existing.content| && incoming.content == existing.content {
        SettlingIsFair(names, plan, path, incoming, existing, existing);
        Record(DeletedDuplicate(incoming.content));
        return None, existing, true;
      }
      ghost var before := quarantine;
      if |incoming.content| > |existing.content| {
        ok := Quarantine(existing, path, plan, content);
        kept := if ok then incoming else existing;
      } else {
        ok := Quarantine(incoming, path, plan, content);
        kept := existing;
      }
      if !ok {
        FailureIsFair(names, plan, before, path, incoming, existing);
        return Some(incoming), existing, false;
      }
      WallsAreFiles(names, plan, before, Home(path));
      SettlingIsFair(names, plan, path, incoming, existing, kept);
      Record(if kept == incoming then KeptLargerIncoming else KeptLargerExisting);
      left := None;
    }

    /** `merge_entry`: what becomes of the entry `name` of the target directory, and what is left of the source. */
    method MergeEntry(source: Node, sourcePath: Path, target: Option<Node>, targetPath: Path, ghost plan: Plan,
                      ghost content: string)
      returns (left: Option<Node>, merged: Node, ok: bool)
      requires sourcePath != [] && targetPath != [] && Calm(names, plan, quarantine)
      requires InPlan(names, plan, source, targetPath) && OptInPlan(names, plan, target, targetPath)
      requires PlainPath(names, Home(targetPath)) in plan.dirs
      modifies this
      ensures ok ==> left == None && merged == Merged(source, target) && |actions| > old(|actions|)
      ensures !ok ==> left.Some? && target.Some? && |actions| >= old(|actions|)
      ensures source.File? && target.Some? && target.value.File? ==>
        (ok <==> source == target.value || !Walled(FilesOf(old(quarantine)), Home(targetPath)))
      ensures target.Some? && source.File? != target.value.File? ==>
        (ok <==> !Walled(FilesOf(old(quarantine)), Home(sourcePath)))
      ensures Conserved(Tally(source, content) + OptTally(target, content), old(Stored(quarantine, content)),
                        old(Deleted(actions, content)),
                        OptTally(left, content) + Tally(merged, content), Stored(quarantine, content),
                        Deleted(actions, content))
      ensures Calm(names, plan, quarantine) && FilesOf(old(quarantine)) <= FilesOf(quarantine)
      ensures MergeFair(names, plan, targetPath, Some(source), target, left, Some(merged), ok)
      decreases source, 1
    {
      hide MergeFair, Walled, Filed, FilesOf, Stored, Tally, Calm, InPlan, Deleted;
      QuietIsRegular(names, plan, quarantine);
      if target.None? {
        MoveIsFair(names, plan, targetPath, Some(source));
        Record(NormalizedName);
        return None, source, true;
      }
      if source.Dir? && target.value.Dir? {
        var rest;
        rest, merged, ok := MergeDirectories(source, sourcePath, target.value, targetPath, plan, content);
        left := Some(Dir(rest));
        if ok {
          EmptyGoes(names, plan, targetPath, Some(source), target, Some(merged));
          EmptyTally(content);
          Record(MergedDirectory);
          left := None;
        }
        return;
      }
      if source.File? && target.value.File? {
        left, merged, ok := SettleFileConflict(source, target.value, targetPath, plan, content);
        return;
      }
      merged := target.value;
      TypeConflictIsIrregular(names, plan, quarantine, targetPath, source, merged, None, true);
      TypeConflictIsIrregular(names, plan, quarantine, targetPath, source, merged, Some(source), false);
      ok := Quarantine(source, sourcePath, plan, content);
      left := Some(source);
      if ok {
        Record(TypeConflict);
        left := None;
      }
    }

    /** The children of one directory merged into another, in any order; what is left behind when that fails. */
    method MergeDirectories(source: Node, sourcePath: Path, target: Node, targetPath: Path, ghost plan: Plan,
                            ghost content: string)
      returns (rest: map<string, Node>, merged: Node, ok: bool)
      requires source.Dir? && target.Dir? && sourcePath != [] && targetPath != [] && Calm(names, plan, quarantine)
      requires InPlan(names, plan, source, targetPath) && InPlan(names, plan, target, targetPath)
      modifies this
      ensures ok ==> rest == map[] && merged == Merged(source, Some(target))
      ensures |actions| >= old(|actions|)
      ensures Conserved(Tally(source, content) + Tally(target, content), old(Stored(quarantine, content)),
                        old(Deleted(actions, content)),
                        Tally(Dir(rest), content) + Tally(merged, content), Stored(quarantine, content),
                        Deleted(actions, content))
      ensures Calm(names, plan, quarantine) && FilesOf(old(quarantine)) <= FilesOf(quarantine)
      ensures MergeFair(names, plan, targetPath, Some(source), Some(target), Some(Dir(rest)), Some(merged), ok)
      decreases source, 0
    {
      hide MergeFair, FilesOf, Stored, Tally, Calm, InPlan, Conserved, Merged, Merging, Deleted;
      QuietIsRegular(names, plan, quarantine);
      MergingStarts(names, plan, targetPath, source, target);
      var entries := target.entries;
      rest := source.entries;
      ghost var part, stored, deleted := Tally(source, content) + Tally(target, content), Stored(quarantine, content),
          Deleted(actions, content);
      ghost var files := FilesOf(quarantine);
      NothingMoved(part, stored, deleted);
      while rest != map[]
        invariant Merging(names, plan, targetPath, source, target, rest, entries) && |actions| >= old(|actions|)
        invariant Conserved(part, stored, deleted, Tally(Dir(rest), content) + Tally(Dir(entries), content),
                            Stored(quarantine, content), Deleted(actions, content))
        invariant Calm(names, plan, quarantine) && files <= FilesOf(quarantine)
        decreases |rest|
      {
        var n :| n in rest;
        MergingInPlan(names, plan, targetPath, source, target, rest, entries);
        ghost var x, stored1, deleted1 := Tally(Dir(rest), content) + Tally(Dir(entries), content),
            Stored(quarantine, content), Deleted(actions, content);
        var rest', entries';
        rest', entries', ok := MergeChild(rest, sourcePath, entries, targetPath, n, plan, content);
        ConservedThen(part, stored, deleted, x, stored1, deleted1,
                      Tally(Dir(rest'), content) + Tally(Dir(entries'), content), Stored(quarantine, content),
                      Deleted(actions, content));
        MergingOn(names, plan, targetPath, source, target, rest, entries, n, rest', entries', ok);
        if !ok {
          return rest', Dir(entries'), false;
        }
        rest, entries := rest', entries';
      }
      MergingEnds(names, plan, targetPath, source, target, entries);
      merged, ok := Dir(entries), true;
    }

    /** One turn of the loop that merges directories. */
    method MergeChild(rest: map<string, Node>, sourcePath: Path, entries: map<string, Node>, targetPath: Path, n: string,
                      ghost plan: Plan, ghost content: string)
      returns (rest': map<string, Node>, entries': map<string, Node>, ok: bool)
      requires n in rest && sourcePath != [] && targetPath != [] && Calm(names, plan, quarantine)
      requires InPlan(names, plan, Dir(rest), targetPath) && InPlan(names, plan, Dir(entries), targetPath)
      modifies this
      ensures ok ==> rest' == rest - {n} && entries' == entries[n := Merged(rest[n], Entry(entries, n))]
      ensures |actions| >= old(|actions|)
      ensures Conserved(Tally(Dir(rest), content) + Tally(Dir(entries), content), old(Stored(quarantine, content)),
                        old(Deleted(actions, content)),
                        Tally(Dir(rest'), content) + Tally(Dir(entries'), content), Stored(quarantine, content),
                        Deleted(actions, content))
      ensures Calm(names, plan, quarantine) && FilesOf(old(quarantine)) <= FilesOf(quarantine)
      ensures MergeFair(names, plan, targetPath, Some(Dir(rest)), Some(Dir(entries)), Some(Dir(rest')), Some(Dir(entries')), ok)
      decreases rest[n], 2
    {
      hide MergeFair, FilesOf, Stored, Tally, Calm, InPlan, Merged, Deleted;
      ChildInPlan(names, plan, targetPath, rest, n);
      ChildInPlan(names, plan, targetPath, entries, n);
      TallyEntry(rest, n, content);
      TallyEntry(entries, n, content);
      var left, one;
      left, one, ok := MergeEntry(rest[n], sourcePath + [n], Entry(entries, n), targetPath + [n], plan, content);
      TallyPutOpt(rest, n, left, content);
      TallyPut(entries, n, one, content);
      OneChildIsFair(names, plan, targetPath, rest, entries, n, left, one, ok);
      rest', entries' := Put(rest, n, left), entries[n := one];
    }

    /** `repair`: bottom-up, the children's insides and then the names of the directory. */
    method RepairDirectory(dir: Node, path: Path, ghost plan: Plan, ghost content: string) returns (fixed: Node, ok: bool)
      requires dir.Dir? && Sane(names) && Calm(names, plan, quarantine) && InPlan(names, plan, dir, path)
      modifies this
      ensures fixed.Dir?
      ensures ok ==> Tidy(names, fixed) && fixed.entries.Keys == NamesAfter(names, dir.entries.Keys, {})
      ensures Conserved(Tally(dir, content), old(Stored(quarantine, content)), old(Deleted(actions, content)),
                        Tally(fixed, content), Stored(quarantine, content), Deleted(actions, content))
      ensures Tidy(names, dir) ==> ok && fixed == dir && quarantine == old(quarantine) && actions == old(actions)
      ensures ok && !Tidy(names, dir) ==> |actions| > old(|actions|)
      ensures |actions| >= old(|actions|)
      ensures Calm(names, plan, quarantine) && FilesOf(old(quarantine)) <= FilesOf(quarantine)
      ensures Fair(names, plan, path, dir, fixed, ok)
      decreases dir, 1
    {
      hide Fair, Calm, InPlan, FilesOf, Stored, Tally, Deleted;
      QuietIsRegular(names, plan, quarantine);
      var inside;
      inside, ok := RepairChildren(dir, path, plan, content);
      if !ok {
        return inside, false;
      }
      ghost var stored, deleted := Stored(quarantine, content), Deleted(actions, content);
      FairInPlan(names, plan, path, dir, inside);
      fixed, ok := RepairNames(inside, path, plan, content);
      FairThen(names, plan, path, dir, inside, fixed, ok);
    }

    ghost predicate InsidesTidy(dir: Node)
      requires dir.Dir?
    {
      forall n | n in dir.entries :: TidyUnder(names, n, dir.entries[n])
    }

    /** The first loop of `repair`. */
    method RepairChildren(dir: Node, path: Path, ghost plan: Plan, ghost content: string) returns (fixed: Node, ok: bool)
      requires dir.Dir? && Sane(names) && Calm(names, plan, quarantine) && InPlan(names, plan, dir, path)
      modifies this
      ensures fixed.Dir?
      ensures ok ==> fixed.entries.Keys == dir.entries.Keys && InsidesTidy(fixed)
      ensures Conserved(Tally(dir, content), old(Stored(quarantine, content)), old(Deleted(actions, content)),
                        Tally(fixed, content), Stored(quarantine, content), Deleted(actions, content))
      ensures InsidesTidy(dir) ==> ok && fixed == dir && quarantine == old(quarantine) && actions == old(actions)
      ensures ok && !InsidesTidy(dir) ==> |actions| > old(|actions|)
      ensures |actions| >= old(|actions|)
      ensures Calm(names, plan, quarantine) && FilesOf(old(quarantine)) <= FilesOf(quarantine)
      ensures Fair(names, plan, path, dir, fixed, ok)
      decreases dir, 0
    {
      hide TidyUnder, Conserved, Tally, Stored, Deleted, Fair, Calm, InPlan, FilesOf;
      QuietIsRegular(names, plan, quarantine);
      var entries := dir.entries;
      var rest := dir.entries.Keys;
      ghost var done: set<string> := {};
      NothingRepaired(names, dir.entries);
      NothingMoved(Tally(dir, content), Stored(quarantine, content), Deleted(actions, content));
      NoRepairIsFair(names, plan, path, dir);
      while rest != {}
        invariant Repairing(names, dir.entries, entries, rest, done) && |actions| >= old(|actions|)
        invariant Conserved(Tally(dir, content), old(Stored(quarantine, content)), old(Deleted(actions, content)),
                            Tally(Dir(entries), content), Stored(quarantine, content), Deleted(actions, content))
        invariant if TidyAt(names, dir.entries, done)
                  then entries == dir.entries && quarantine == old(quarantine) && actions == old(actions)
                  else |actions| > old(|actions|)
        invariant Calm(names, plan, quarantine) && FilesOf(old(quarantine)) <= FilesOf(quarantine)
        invariant Fair(names, plan, path, dir, Dir(entries), true)
      {
        var n :| n in rest;
        ghost var x, stored, deleted := Tally(Dir(entries), content), Stored(quarantine, content), Deleted(actions, content);
        FairInPlan(names, plan, path, dir, Dir(entries));
        var one;
        one, ok := RepairEntry(entries, path, n, plan, content);
        ConservedThen(Tally(dir, content), old(Stored(quarantine, content)), old(Deleted(actions, content)), x,
                      stored, deleted, Tally(Dir(entries[n := one]), content), Stored(quarantine, content),
                      Deleted(actions, content));
        FairThen(names, plan, path, dir, Dir(entries), Dir(entries[n := one]), ok);
        if !ok {
          return Dir(entries[n := one]), false;
        }
        RepairedOneMore(names, dir.entries, entries, rest, done, n, one);
        entries, rest, done := entries[n := one], rest - {n}, done + {n};
      }
      fixed, ok := Dir(entries), true;
      assert done == dir.entries.Keys;
    }

    /** One child of the first loop: directories are repaired unless they are excluded. */
    method RepairEntry(entries: map<string, Node>, path: Path, name: string, ghost plan: Plan, ghost content: string)
      returns (fixed: Node, ok: bool)
      requires name in entries && Sane(names) && Calm(names, plan, quarantine) && InPlan(names, plan, Dir(entries), path)
      modifies this
      ensures ok ==> TidyUnder(names, name, fixed)
      ensures ok && fixed.Dir? && names.fold(name) !in names.excluded ==> Tidy(names, fixed)
      ensures entries[name].File? || names.fold(name) in names.excluded ==>
        ok && fixed == entries[name] && quarantine == old(quarantine) && actions == old(actions)
      ensures Conserved(Tally(Dir(entries), content), old(Stored(quarantine, content)), old(Deleted(actions, content)),
                        Tally(Dir(entries[name := fixed]), content), Stored(quarantine, content),
                        Deleted(actions, content))
      ensures TidyUnder(names, name, entries[name]) ==>
        ok && fixed == entries[name] && quarantine == old(quarantine) && actions == old(actions)
      ensures ok && !TidyUnder(names, name, entries[name]) ==> |actions| > old(|actions|)
      ensures |actions| >= old(|actions|)
      ensures Calm(names, plan, quarantine) && FilesOf(old(quarantine)) <= FilesOf(quarantine)
      ensures Fair(names, plan, path, Dir(entries), Dir(entries[name := fixed]), ok)
      decreases entries[name], 2
    {
      hide Fair, Calm, InPlan, FilesOf, Stored, Tally, Deleted;
      QuietIsRegular(names, plan, quarantine);
      NoRepairIsFair(names, plan, path, Dir(entries));
      var child := entries[name];
      if child.Dir? && !Excluded(names, name) {
        TallyRemove(entries, name, content);
        ChildInPlan(names, plan, path, entries, name);
        fixed, ok := RepairDirectory(child, path + [name], plan, content);
        TallyPut(entries, name, fixed, content);
        ChildTurn(names, plan, path, Dir(entries), entries, name, fixed, ok);
      } else {
        fixed, ok := child, true;
        assert entries[name := fixed] == entries;
      }
    }

    /** One turn of the second loop of `repair`: a name that is not plain gives way to its plain form. */
    method RepairName(entries: map<string, Node>, n: string, path: Path, ghost plan: Plan, ghost content: string)
      returns (changed: map<string, Node>, ok: bool)
      requires Sane(names) && n in entries && Plain(names, n) != n && InsidesTidy(Dir(entries))
      requires Calm(names, plan, quarantine) && InPlan(names, plan, Dir(entries), path)
      modifies this
      ensures ok ==> changed.Keys == entries.Keys - {n} + {Plain(names, n)} && InsidesTidy(Dir(changed))
      ensures ok ==> |actions| > old(|actions|)
      ensures |actions| >= old(|actions|)
      ensures Conserved(Tally(Dir(entries), content), old(Stored(quarantine, content)), old(Deleted(actions, content)),
                        Tally(Dir(changed), content), Stored(quarantine, content), Deleted(actions, content))
      ensures Calm(names, plan, quarantine) && FilesOf(old(quarantine)) <= FilesOf(quarantine)
      ensures Fair(names, plan, path, Dir(entries), Dir(changed), ok)
    {
      hide MergeFair, Fair, Calm, InPlan, FilesOf, Stored, Tally, Deleted, Merged, Walled;
      var plain := Plain(names, n);
      PlainIdempotent(names, n);
      var there := Entry(entries, plain);
      assert TidyUnder(names, n, entries[n]) && (there.Some? ==> TidyUnder(names, plain, there.value));
      MergedIsTidy(names, plain, entries[n], there);
      ChildInPlan(names, plan, path, entries, n);
      ChildInPlan(names, plan, path, entries, plain);
      SamePlace(names, plan, path, Some(entries[n]), n, plain);
      TallyTwo(entries, n, plain, entries, content);
      var left, one;
      left, one, ok := MergeEntry(entries[n], path + [n], there, path + [plain], plan, content);
      changed := Put(entries, n, left)[plain := one];
      TallyTwo(changed, n, plain, entries, content);
      RenameIsFair(names, plan, path, entries, n, left, one, ok);
    }

    /** The second loop of `repair`. */
    method RenameAll(dir: Node, path: Path, ghost plan: Plan, ghost content: string) returns (fixed: Node, ok: bool)
      requires dir.Dir? && Sane(names) && InsidesTidy(dir)
      requires Calm(names, plan, quarantine) && InPlan(names, plan, dir, path)
      modifies this
      ensures fixed.Dir?
      ensures ok ==> InsidesTidy(fixed) && fixed.entries.Keys == NamesAfter(names, dir.entries.Keys, {})
      ensures Conserved(Tally(dir, content), old(Stored(quarantine, content)), old(Deleted(actions, content)),
                        Tally(fixed, content), Stored(quarantine, content), Deleted(actions, content))
      ensures AllPlain(names, dir.entries.Keys) ==>
        ok && fixed == dir && quarantine == old(quarantine) && actions == old(actions)
      ensures ok && !AllPlain(names, dir.entries.Keys) ==> |actions| > old(|actions|)
      ensures |actions| >= old(|actions|)
      ensures Calm(names, plan, quarantine) && FilesOf(old(quarantine)) <= FilesOf(quarantine)
      ensures Fair(names, plan, path, dir, fixed, ok)
    {
      hide Tally, Stored, Deleted, Fair, Calm, InPlan, FilesOf, InsidesTidy, Conserved, NamesAfter, AllPlain;
      QuietIsRegular(names, plan, quarantine);
      NoRepairIsFair(names, plan, path, dir);
      NothingMoved(Tally(dir, content), Stored(quarantine, content), Deleted(actions, content));
      NamesBefore(names, dir.entries.Keys);
      assert dir.entries.Keys - dir.entries.Keys == {} && Dir(dir.entries) == dir;
      var entries := dir.entries;
      var rest := dir.entries.Keys;
      ghost var calm := true;
      while rest != {}
        invariant rest <= dir.entries.Keys && |actions| >= old(|actions|)
        invariant entries.Keys == NamesAfter(names, dir.entries.Keys, rest) && InsidesTidy(Dir(entries))
        invariant Conserved(Tally(dir, content), old(Stored(quarantine, content)), old(Deleted(actions, content)),
                            Tally(Dir(entries), content), Stored(quarantine, content), Deleted(actions, content))
        invariant calm <==> AllPlain(names, dir.entries.Keys - rest)
        invariant calm ==> entries == dir.entries && quarantine == old(quarantine) && actions == old(actions)
        invariant !calm ==> |actions| > old(|actions|)
        invariant Calm(names, plan, quarantine) && FilesOf(old(quarantine)) <= FilesOf(quarantine)
        invariant Fair(names, plan, path, dir, Dir(entries), true)
      {
        var n :| n in rest;
        NameStep(names, dir.entries.Keys, rest, n);
        OneNameMore(names, dir.entries.Keys, rest, n);
        rest := rest - {n};
        if Plain(names, n) != n {
          FairInPlan(names, plan, path, dir, Dir(entries));
          ghost var x, stored, deleted := Tally(Dir(entries), content), Stored(quarantine, content), Deleted(actions, content);
          var changed;
          changed, ok := RepairName(entries, n, path, plan, content);
          ConservedThen(Tally(dir, content), old(Stored(quarantine, content)), old(Deleted(actions, content)), x,
                        stored, deleted, Tally(Dir(changed), content), Stored(quarantine, content),
                        Deleted(actions, content));
          FairThen(names, plan, path, dir, Dir(entries), Dir(changed), ok);
          entries := changed;
          if !ok {
            return Dir(entries), false;
          }
          calm := false;
        }
      }
      assert dir.entries.Keys - {} == dir.entries.Keys;
      fixed, ok := Dir(entries), true;
    }

    /** The second half of `repair`: the names of the directory. */
    method RepairNames(dir: Node, path: Path, ghost plan: Plan, ghost content: string) returns (fixed: Node, ok: bool)
      requires dir.Dir? && Sane(names) && InsidesTidy(dir)
      requires Calm(names, plan, quarantine) && InPlan(names, plan, dir, path)
      modifies this
      ensures fixed.Dir?
      ensures ok ==> Tidy(names, fixed) && fixed.entries.Keys == NamesAfter(names, dir.entries.Keys, {})
      ensures Conserved(Tally(dir, content), old(Stored(quarantine, content)), old(Deleted(actions, content)),
                        Tally(fixed, content), Stored(quarantine, content), Deleted(actions, content))
      ensures Tidy(names, dir) ==> ok && fixed == dir && quarantine == old(quarantine) && actions == old(actions)
      ensures ok && !Tidy(names, dir) ==> |actions| > old(|actions|)
      ensures |actions| >= old(|actions|)
      ensures Calm(names, plan, quarantine) && FilesOf(old(quarantine)) <= FilesOf(quarantine)
      ensures Fair(names, plan, path, dir, fixed, ok)
    {
      hide Tally, Stored, Deleted, Fair, Calm, InPlan, FilesOf, Conserved;
      fixed, ok := RenameAll(dir, path, plan, content);
      if ok {
        forall n | n in fixed.entries ensures Plain(names, n) == n {
          NamesLeft(names, dir.entries.Keys, {}, n);
        }
      }
    }

    /** `inventory`: the paths whose last name is not plain, down to excluded directories. */
    static method Inventory(names: Names, dir: Node, path: Path) returns (affected: seq<Path>)
      requires dir.Dir?
      ensures affected == [] <==> Tidy(names, dir)
      ensures AllMarked(names, affected)
      decreases dir, 0
    {
      hide EntryTidy;
      affected := [];
      var rest := dir.entries.Keys;
      ghost var done: set<string> := {};
      while rest != {}
        invariant rest + done == dir.entries.Keys && rest !! done
        invariant affected == [] <==> PlainAt(names, dir.entries, done)
        invariant AllMarked(names, affected)
      {
        var n :| n in rest;
        rest := rest - {n};
        var more := InventoryEntry(names, dir.entries[n], path + [n], n);
        affected := affected + more;
        done := done + {n};
      }
      assert done == dir.entries.Keys;
      PlainThroughout(names, dir);
    }

    /** One entry: what is below it, and itself. */
    static method InventoryEntry(names: Names, node: Node, path: Path, n: string) returns (affected: seq<Path>)
      requires path != [] && path[|path| - 1] == n
      ensures affected == [] <==> EntryTidy(names, n, node)
      ensures AllMarked(names, affected)
      decreases node, 1
    {
      affected := [];
      if node.Dir? && !Excluded(names, n) {
        affected := Inventory(names, node, path);
      }
      if Plain(names, n) != n {
        affected := affected + [path];
      }
    }

    /** `normalize_apostrophe_names` in apply mode; it fails when a directory of the quarantine cannot be made. */
    method Normalize(root: Node, ghost content: string) returns (fixed: Node, changed: bool, ok: bool)
      requires root.Dir? && Sane(names) && actions == []
      modifies this
      ensures fixed.Dir?
      ensures ok ==> Tidy(names, fixed) && fixed.entries.Keys == NamesAfter(names, root.entries.Keys, {})
      ensures Conserved(Tally(root, content), old(Stored(quarantine, content)), 0,
                        Tally(fixed, content), Stored(quarantine, content), Deleted(actions, content))
      ensures ok ==> (changed <==> !Tidy(names, root))
      ensures Tidy(names, root) ==> ok && fixed == root && quarantine == old(quarantine)
      ensures Quiet(names, root) && !MayFail(names, root, old(quarantine)) ==> ok
      ensures Quiet(names, root) && (forall f | f in FilesOf(old(quarantine)) :: Unmarked(names, f)) ==>
        (ok <==> !MayFail(names, root, old(quarantine)))
      ensures NoTypeConflict(names, root) && MustFail(names, root, old(quarantine)) ==>
        !ok && NoTypeConflict(names, fixed) && MustFail(names, fixed, quarantine)
    {
      hide MayFail, MustFail, Quiet, NoTypeConflict, Fair, Calm, FilesOf, Stored, Tally, Unmarked;
      ghost var plan := PlanFor(names, root, quarantine);
      ghost var before := quarantine;
      PlanIsSound(names, root, quarantine);
      fixed, ok := RepairDirectory(root, [], plan, content);
      changed := actions != [];
      WhatFairMeans(names, root, fixed, before, quarantine, ok);
    }
  }

  /** After a run that succeeds, a second run finds nothing to do, succeeds and changes nothing. */
  method NormalizeTwice(names: Names, root: Node, quarantine: map<Path, Node>, ghost content: string)
    returns (once: Node, ok: bool, twice: Node, affected: seq<Path>, changed: bool, okAgain: bool)
    requires root.Dir? && Sane(names)
    ensures Tidy(names, root) ==> ok
    ensures Quiet(names, root) && !MayFail(names, root, quarantine) ==> ok
    ensures ok ==> affected == [] && okAgain && !changed && twice == once
  {
    var first := new Run(names, quarantine);
    var any;
    once, any, ok := first.Normalize(root, content);
    affected := Run.Inventory(names, once, []);
    var second := new Run(names, first.quarantine);
    twice, changed, okAgain := second.Normalize(once, content);
  }

  /** When two different files come to one path in a walled directory, every run fails, however often it is repeated. */
  method NormalizeAgain(names: Names, root: Node, quarantine: map<Path, Node>, times: nat, ghost content: string)
    returns (oks: seq<bool>, left: Node)
    requires root.Dir? && Sane(names) && NoTypeConflict(names, root) && MustFail(names, root, quarantine)
    ensures |oks| == times && (forall i | 0 <= i < times :: !oks[i]) && left.Dir? && !Tidy(names, left)
  {
    hide MustFail, NoTypeConflict, MayFail, Quiet, Tidy, Conserved, NamesAfter, Sane;
    oks, left := [], root;
    var q := quarantine;
    while |oks| < times
      invariant |oks| <= times && (forall i | 0 <= i < |oks| :: !oks[i])
      invariant left.Dir? && NoTypeConflict(names, left) && MustFail(names, left, q)
    {
      var run := new Run(names, q);
      var fixed, changed, ok := run.Normalize(left, content);
      oks, left, q := oks + [ok], fixed, run.quarantine;
    }
    MustFailIsUntidy(names, left, q);
  }

  /** A file of an earlier quarantine at the path of a directory in which two different files come to one name. */
  lemma QuarantinedFileBlocks(n: Names, d: string, a: string, b: string, c: string, c': string, earlier: string)
    requires Unmarked(n, [d]) && !Excluded(n, d) && a != b && Plain(n, a) == Plain(n, b) && c != c'
    ensures var root := Dir(map[d := Dir(map[a := File(c), b := File(c')])]);
            NoTypeConflict(n, root) && MustFail(n, root, map[[d] := File(earlier)])
  {
    var inner := map[a := File(c), b := File(c')];
    var root := Dir(map[d := Dir(inner)]);
    var q := map[[d] := File(earlier)];
    UnmarkedIsPlain(n, d);
    OneDirectoryBelow(n, d, inner, [d] + [Plain(n, a)]);
    var s := [d, Plain(n, a)];
    HoldsIn(n, d, inner, a, c);
    HoldsIn(n, d, inner, b, c');
    assert Clashing(n, root, s);
    assert [] in FilePaths(q[[d]]) && [d] + [] == [d] && [d] in FilesOf(q);
    assert Home(s) == [d] && PlainPath(n, [d]) == [d];
    assert MustWall(n, FilesOf(q), Home(s));
  }

  lemma OneDirectoryBelow(n: Names, d: string, inner: map<string, Node>, at: Path)
    requires Plain(n, d) == d && forall m | m in inner :: inner[m].File? && [d] + [Plain(n, m)] == at
    ensures Files(n, Dir(map[d := Dir(inner)]), []) <= {at} && Dirs(n, Dir(map[d := Dir(inner)]), []) == {[], [d]}
  {
    var root := Dir(map[d := Dir(inner)]);
    assert [] + [d] == [d] && root.entries[d] == Dir(inner);
    assert Dirs(n, Dir(inner), [d]) == {[d]} && Files(n, Dir(inner), [d]) <= {at};
  }

  lemma UnmarkedIsPlain(n: Names, d: string)
    requires Unmarked(n, [d])
    ensures Plain(n, d) == d
  {
    forall i | 0 <= i < |d| ensures d[i] !in n.marks {
      assert d in [d] && d[i] in d;
    }
  }

  lemma HoldsIn(n: Names, d: string, inner: map<string, Node>, a: string, c: string)
    requires Plain(n, d) == d && !Excluded(n, d) && a in inner && inner[a] == File(c)
    ensures Holds(n, Dir(map[d := Dir(inner)]), [d, Plain(n, a)], c)
  {
    var p := [d, a];
    assert p[1..] == [a] && [a][1..] == [];
    assert Canon(n, [a]) == [Plain(n, a)] && Canon(n, p) == [d] + [Plain(n, a)];
    BelowEntry(inner, [a]);
    BelowEntry(map[d := Dir(inner)], p);
    assert FileAt(Dir(inner), [a]) == Some(c) && FileAt(Dir(map[d := Dir(inner)]), p) == Some(c);
  }

  lemma FirstIsFiled(n: Names, p: Path, q: map<Path, Node>, node: Node)
    requires p != []
    ensures FilesOf(map[]) == {} && !Walled(FilesOf(map[]), Home(p))
    ensures Filed(n, map[], q, p, node) ==> q == map[p := node]
    ensures node.File? ==> !Walled(FilesOf(map[p := node]), Home(p))
  {
    assert Taken(map[]) == {};
    if node.File? {
      FilesGrow(map[], p, node);
    }
  }

  lemma SecondIsFiled(n: Names, p: Path, first: Node, q: map<Path, Node>, node: Node)
    requires p != [] && first.File? && Numbered(n, p, 2) != p
    requires node.File? && Filed(n, map[p := first], q, p, node)
    ensures Numbered(n, p, 2) in FilesOf(q)
  {
    var taken := Taken(map[p := first]);
    StoredIsTaken(map[p := first], p);
    var free :| free !in taken && FirstFree(n, taken, p, free) && q == map[p := first][free := node];
    var i: nat :| i >= 2 && free == Numbered(n, p, i) && Tried(n, p, i) <= taken;
    assert i > 2 ==> Numbered(n, p, 2) in Tried(n, p, i);
    FilesGrow(map[p := first], free, node);
  }

  /** A plan for merging two directories of files at one path. */
  ghost function OneDirectory(n: Names, path: Path, y: string, q: map<Path, Node>): Plan {
    Plan({PlainPath(n, path) + [Plain(n, y)]}, {PlainPath(n, path)}, FilesOf(q), true, false)
  }

  lemma OneDirectoryIsSound(n: Names, path: Path, q: map<Path, Node>, y: string, file: Node)
    requires file.File?
    ensures Calm(n, OneDirectory(n, path, y, q), q) && InPlan(n, OneDirectory(n, path, y, q), Dir(map[y := file]), path)
  {
  }

  lemma BothCannotStay(n: Names, plan: Plan, path: Path, y: string, a: Node, b: Node, merged: Node)
    requires a.File? && b.File? && a != b && plan.regular && path in plan.walls
    ensures !MergeFair(n, plan, path, Some(Dir(map[y := a])), Some(Dir(map[y := b])), Some(Dir(map[])), Some(merged), true)
  {
    var source, target := Some(Dir(map[y := a])), Some(Dir(map[y := b]));
    assert [y][1..] == [] && Home(path + [y]) == path && path[..|path|] == path;
    assert Walled(plan.walls, Home(path + [y]));
    BelowEntry(map[y := a], [y]);
    BelowEntry(map[y := b], [y]);
    assert Either(source, target, [y], a.content) && Either(source, target, [y], b.content);
  }

  /**
   From an empty quarantine: three different files come to one name, so the last is quarantined under the first number,
   and then two directories of that very name are merged, in which two different files come to one name.
   */
  method NumberedFileBlocks(names: Names, p: Path, first: Node, second: Node, third: Node, source: Path, y: string,
                            a: Node, b: Node, ghost content: string)
    returns (ok: bool)
    requires first.File? && second.File? && third.File? && first != second && first != third && second != third
    requires p != [] && Numbered(names, p, 2) != p && source != [] && a.File? && b.File? && a != b
    ensures !ok
  {
    hide MergeFair, Conserved, Merged, Stored, Deleted, Tally;
    var run := new Run(names, map[]);
    ghost var open := Plan({PlainPath(names, p)}, {PlainPath(names, Home(p))}, {}, false, false);
    var left, kept, done;
    left, kept, done := run.SettleFileConflict(second, first, p, open, content);
    var lost := if kept == second then first else second;
    FirstIsFiled(names, p, run.quarantine, lost);
    var before := kept;
    left, kept, done := run.SettleFileConflict(third, kept, p, open, content);
    var target := Numbered(names, p, 2);
    SecondIsFiled(names, p, lost, run.quarantine, if kept == third then before else third);
    var plan := OneDirectory(names, target, y, run.quarantine);
    OneDirectoryIsSound(names, target, run.quarantine, y, a);
    OneDirectoryIsSound(names, target, run.quarantine, y, b);
    var rest, merged;
    rest, merged, ok := run.MergeDirectories(Dir(map[y := a]), source, Dir(map[y := b]), target, plan, content);
    if ok {
      BothCannotStay(names, plan, target, y, a, b, merged);
    }
  }

  /** A plan for merging two directories with one file, from an empty quarantine. */
  ghost function WayTo(n: Names, target: Path, y: string): Plan {
    var at := PlainPath(n, target);
    Plan({at + [Plain(n, y)]}, set i | 0 <= i <= |at| :: at[..i], {}, true, true)
  }

  lemma WayIsSound(n: Names, target: Path, y: string, file: Node)
    requires file.File?
    ensures Calm(n, WayTo(n, target, y), map[]) && InPlan(n, WayTo(n, target, y), Dir(map[y := file]), target)
  {
    var at, plan := PlainPath(n, target), WayTo(n, target, y);
    assert at[..|at|] == at;
    assert forall d | d in plan.dirs :: |d| <= |at|;
    forall d, i | d in plan.dirs && 0 <= i <= |d| ensures d[..i] in plan.dirs {
      var j :| 0 <= j <= |at| && d == at[..j];
      assert at[..j][..i] == at[..i];
    }
    assert FilesOf(map[]) == {};
  }

  /** Nothing in the quarantine is in the way of the directory of `target`. */
  lemma WayIsFree(n: Names, target: Path, y: string, q: map<Path, Node>)
    requires target != [] && Calm(n, WayTo(n, target, y), q)
    ensures !Walled(FilesOf(q), Home(target))
  {
    var at := PlainPath(n, target);
    forall i | 0 <= i <= |Home(target)| ensures Home(target)[..i] !in FilesOf(q) {
      assert Home(target)[..i] == target[..i];
      PlainPrefix(n, target, i);
      assert at[..i] in WayTo(n, target, y).dirs;
    }
  }

  lemma NoMergeBlame(n: Names, target: Path, y: string, a: Option<Node>, b: Option<Node>)
    ensures !MergeBlame(n, WayTo(n, target, y), target, a, b)
  {
  }

  /** A file beside the directory's own path is not in its way. */
  lemma StillFree(n: Names, q: map<Path, Node>, q': map<Path, Node>, p: Path, node: Node)
    requires p != [] && node.File? && Filed(n, q, q', p, node) && !Walled(FilesOf(q), Home(p))
    ensures !Walled(FilesOf(q'), Home(p))
  {
    var free :| free !in Taken(q) && FirstFree(n, Taken(q), p, free) && q' == q[free := node];
    if free in q {
      StoredIsTaken(q, free);
    }
    FilesGrow(q, free, node);
    assert |free| == |p|;
  }

  /** The same library with the directories merged first: all goes well. So whether a run fails can depend on the order in
      which directories are listed. */
  method NumberedDirectoryFirst(names: Names, p: Path, first: Node, second: Node, third: Node, source: Path, y: string,
                                a: Node, b: Node, ghost content: string)
    returns (ok: bool)
    requires first.File? && second.File? && third.File? && first != second && first != third && second != third
    requires p != [] && Numbered(names, p, 2) != p && source != [] && a.File? && b.File? && a != b
    ensures ok
  {
    hide MergeFair, MergeBlame, Conserved, Merged, Stored, Deleted, Tally, Filed, Walled, FilesOf, Taken, WayTo;
    var run := new Run(names, map[]);
    var target := Numbered(names, p, 2);
    ghost var way := WayTo(names, target, y);
    WayIsSound(names, target, y, a);
    WayIsSound(names, target, y, b);
    var rest, merged;
    rest, merged, ok := run.MergeDirectories(Dir(map[y := a]), source, Dir(map[y := b]), target, way, content);
    FairHasBlame(names, way, target, Some(Dir(map[y := a])), Some(Dir(map[y := b])), Some(Dir(rest)), Some(merged), ok);
    NoMergeBlame(names, target, y, Some(Dir(map[y := a])), Some(Dir(map[y := b])));
    WayIsFree(names, target, y, run.quarantine);
    ghost var open := Plan({PlainPath(names, p)}, {PlainPath(names, Home(p))}, {}, false, false);
    var left, kept, firstOk, secondOk;
    ghost var before := run.quarantine;
    left, kept, firstOk := run.SettleFileConflict(second, first, p, open, content);
    StillFree(names, before, run.quarantine, p, if kept == second then first else second);
    left, kept, secondOk := run.SettleFileConflict(third, kept, p, open, content);
    ok := ok && firstOk && secondOk;
  }

  lemma FairHasBlame(n: Names, plan: Plan, path: Path, a: Option<Node>, b: Option<Node>, left: Option<Node>,
                     merged: Option<Node>, ok: bool)
    requires MergeFair(n, plan, path, a, b, left, merged, ok)
    ensures !ok ==> MergeBlame(n, plan, path, a, b)
  {
  }
}
