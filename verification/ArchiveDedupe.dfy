/**
 Removing duplicate archives from a folder in two passes: `_split_group_by_content`, `_resolve_dup_group` and
 `dedupe_archives_in_dir` in scripts/cbz_library_maintenance.py. Whatever names and metadata propose, an archive is
 deleted only when one with the same pages and at least its size is there in the end.
 */
module ArchiveDedupe {
  import opened Outcomes
  import opened Ordering

  /** What is read from an archive by its file name: the name key, the ComicInfo key, the fingerprint of the pages (None
      when they prove nothing), its size, whether it is a CBZ, and its name in lower case. */
  datatype Facts = Facts(
    key: string -> string,
    meta: string -> Option<string>,
    pages: string -> Option<string>,
    size: string -> nat,
    cbz: string -> bool,
    lower: string -> string)

  /** Only a CBZ has a fingerprint. */
  ghost predicate Sane(f: Facts) {
    forall p | f.pages(p).Some? :: f.cbz(p)
  }

  /** `q` proves `p` redundant: the same pages, and no smaller. */
  predicate Covers(f: Facts, q: string, p: string) {
    f.pages(p).Some? && f.pages(q) == f.pages(p) && f.size(q) >= f.size(p)
  }

  ghost predicate Redundant(f: Facts, stay: set<string>, p: string) {
    exists q | q in stay :: Covers(f, q, p)
  }

  /** Every dropped archive is covered by one that stays. */
  ghost predicate Covered(f: Facts, stay: set<string>, dropped: set<string>) {
    forall p {:trigger Redundant(f, stay, p)} | p in dropped :: Redundant(f, stay, p)
  }

  /** Both have pages that can be told, and the same ones. */
  predicate SamePages(f: Facts, p: string, q: string) {
    f.pages(p).Some? && f.pages(p) == f.pages(q)
  }

  /** The archives under a key. */
  function Under(items: set<string>, key: string -> Option<string>, k: string): set<string> {
    set p | p in items && key(p) == Some(k)
  }

  function WithKey(items: set<string>, key: string -> Option<string>): set<string> {
    set p | p in items && key(p).Some?
  }

  /** A dictionary of lists filled in a loop: every key that occurs, with the archives under it. */
  method GroupBy(items: set<string>, key: string -> Option<string>) returns (groups: map<string, set<string>>)
    ensures forall k | k in groups :: groups[k] == Under(items, key, k) != {}
    ensures forall p | p in items && key(p).Some? :: key(p).value in groups
  {
    groups := map[];
    var rest := items;
    while rest != {}
      invariant rest <= items
      invariant forall k | k in groups :: groups[k] == Under(items - rest, key, k) != {}
      invariant forall p | p in items - rest && key(p).Some? :: key(p).value in groups
    {
      var p :| p in rest;
      GroupOne(items - rest, key, p);
      assert items - (rest - {p}) == items - rest + {p};
      rest := rest - {p};
      if key(p).Some? {
        var k := key(p).value;
        groups := groups[k := (if k in groups then groups[k] else {}) + {p}];
      }
    }
    assert items - {} == items;
  }

  lemma GroupOne(items: set<string>, key: string -> Option<string>, p: string)
    ensures forall k :: Under(items + {p}, key, k) == Under(items, key, k) + (if key(p) == Some(k) then {p} else {})
  {
  }

  /** `(-p.stat().st_size, p.name.lower())`: `a` sorts before `b` or ties with it. */
  predicate SortsFirst(f: Facts, a: string, b: string) {
    f.size(a) > f.size(b) || (f.size(a) == f.size(b) && !Less(f.lower(b), f.lower(a)))
  }

  lemma SortsFirstOrder(f: Facts, a: string, b: string, c: string)
    ensures SortsFirst(f, a, b) || SortsFirst(f, b, a)
    ensures SortsFirst(f, a, b) && SortsFirst(f, b, c) ==> SortsFirst(f, a, c)
  {
    LessTotal(f.lower(a), f.lower(b));
    LessTotal(f.lower(b), f.lower(c));
    LessTotal(f.lower(a), f.lower(c));
    if Less(f.lower(c), f.lower(a)) && Less(f.lower(a), f.lower(b)) {
      LessTransitive(f.lower(c), f.lower(a), f.lower(b));
    }
  }

  /** The first of `sorted(pool, ...)`. */
  method Largest(f: Facts, pool: set<string>) returns (keep: string)
    requires pool != {}
    ensures keep in pool && forall p | p in pool :: SortsFirst(f, keep, p)
  {
    keep :| keep in pool;
    SortsFirstOrder(f, keep, keep, keep);
    var rest := pool - {keep};
    while rest != {}
      invariant keep in pool && rest <= pool
      invariant forall p | p in pool - rest :: SortsFirst(f, keep, p)
    {
      var p :| p in rest;
      rest := rest - {p};
      if !SortsFirst(f, keep, p) {
        forall q | q in pool - rest ensures SortsFirst(f, p, q) {
          SortsFirstOrder(f, p, keep, q);
          SortsFirstOrder(f, p, q, q);
        }
        keep := p;
      }
    }
  }

  /** `_split_group_by_content`: one part for every fingerprint, and each unreadable archive alone. */
  method SplitGroupByContent(f: Facts, group: set<string>)
    returns (byContent: map<string, set<string>>, unreadable: set<string>)
    ensures forall k | k in byContent :: byContent[k] == Under(group, f.pages, k) != {}
    ensures forall p | p in group && f.pages(p).Some? :: f.pages(p).value in byContent
    ensures unreadable == set p | p in group && f.pages(p).None?
  {
    byContent := GroupBy(group, f.pages);
    unreadable := set p | p in group && f.pages(p).None?;
  }

  // ------------------------------------------------------------ what a pass leaves

  predicate SameKey(key: string -> Option<string>, p: string, q: string) {
    key(p).Some? && key(p) == key(q)
  }

  predicate Twins(f: Facts, key: string -> Option<string>, p: string, q: string) {
    SameKey(key, p, q) && SamePages(f, p, q)
  }

  /** No key of one is a key of the other. */
  ghost predicate KeysApart(key: string -> Option<string>, group: set<string>, seen: set<string>) {
    forall p, q {:trigger SameKey(key, p, q)} | p in group && q in seen :: !SameKey(key, p, q)
  }

  /** No two of them have both one key and the same pages. */
  ghost predicate NoTwins(f: Facts, key: string -> Option<string>, stay: set<string>) {
    forall p, q {:trigger Twins(f, key, p, q)} | p in stay && q in stay && p != q :: !Twins(f, key, p, q)
  }

  /** No two of them have the same pages. */
  ghost predicate Distinct(f: Facts, stay: set<string>) {
    forall p, q {:trigger SamePages(f, p, q)} | p in stay && q in stay && p != q :: !SamePages(f, p, q)
  }

  ghost predicate Proven(f: Facts, dropped: set<string>) {
    forall p | p in dropped :: f.pages(p).Some?
  }

  /** `q` has the key of `p` and proves it redundant. */
  predicate KeyCovers(f: Facts, key: string -> Option<string>, q: string, p: string) {
    SameKey(key, q, p) && Covers(f, q, p)
  }

  /** Every dropped archive is covered by one that stays and that its key proposed. */
  ghost predicate KeyCovered(f: Facts, key: string -> Option<string>, stay: set<string>, dropped: set<string>) {
    forall p | p in dropped :: exists q :: q in stay && KeyCovers(f, key, q, p)
  }

  lemma CoveredUnion(f: Facts, stay: set<string>, dropped: set<string>, stay': set<string>, dropped': set<string>)
    requires Covered(f, stay, dropped) && Covered(f, stay', dropped')
    ensures Covered(f, stay + stay', dropped + dropped')
  {
    forall p | p in dropped + dropped' ensures Redundant(f, stay + stay', p) {
      if p in dropped {
        assert Redundant(f, stay, p);
      } else {
        assert Redundant(f, stay', p);
      }
    }
  }

  /** What covered a file of the first pass and was dropped in the second is itself covered: so is the file. */
  lemma CoveredTwice(f: Facts, files: set<string>, first: set<string>, items: set<string>, second: set<string>)
    requires Covered(f, files - first, first) && Covered(f, items - second, second)
    requires items <= files - first && second <= items
    ensures Covered(f, files - (first + second), first + second)
  {
    var stay := files - (first + second);
    forall p | p in first + second ensures Redundant(f, stay, p) {
      if p in second {
        assert Redundant(f, items - second, p);
        var q :| q in items - second && Covers(f, q, p);
        assert q in stay;
      } else {
        assert Redundant(f, files - first, p);
        var q :| q in files - first && Covers(f, q, p);
        if q in second {
          assert Redundant(f, items - second, q);
          var r :| r in items - second && Covers(f, r, q);
          assert r in stay && Covers(f, r, p);
        } else {
          assert q in stay;
        }
      }
    }
  }

  /** The archives whose key is among `done`. */
  ghost function Keyed(items: set<string>, key: string -> Option<string>, done: set<string>): set<string> {
    set p | p in items && key(p).Some? && key(p).value in done
  }

  lemma OneKeyMore(items: set<string>, key: string -> Option<string>, done: set<string>, k: string)
    requires k !in done
    ensures Keyed(items, key, done + {k}) == Keyed(items, key, done) + Under(items, key, k)
    ensures Keyed(items, key, done) !! Under(items, key, k)
    ensures KeysApart(key, Under(items, key, k), Keyed(items, key, done))
  {
  }

  ghost predicate OnePrint(f: Facts, part: set<string>) {
    exists k :: forall p | p in part :: f.pages(p) == Some(k)
  }

  /** Nothing in one has the pages of something in the other. */
  ghost predicate Apart(f: Facts, part: set<string>, seen: set<string>) {
    forall p, q {:trigger SamePages(f, p, q)} | p in part && q in seen :: !SamePages(f, p, q)
  }

  /** The part of one fingerprint has nothing of the parts of others. */
  lemma PartApart(f: Facts, group: set<string>, done: set<string>, k: string)
    requires k !in done
    ensures Apart(f, Under(group, f.pages, k), Keyed(group, f.pages, done)) && OnePrint(f, Under(group, f.pages, k))
  {
  }

  /** What is in the folder once `gone` was deleted, or reported in a dry run. */
  function Without(dry: bool, files: set<string>, gone: set<string>): set<string> {
    if dry then files else files - gone
  }

  /** A step dropped `gone`, each with proof by something of `kept`, and the folder says so. */
  ghost predicate Dropped(f: Facts, dry: bool, kept: set<string>, gone: set<string>, present: set<string>,
                          present': set<string>) {
    && Covered(f, kept, gone) && Proven(f, gone)
    && present' == Without(dry, present, gone)
  }

  lemma DroppedBoth(f: Facts, dry: bool, kept: set<string>, gone: set<string>, kept': set<string>, gone': set<string>,
                    p0: set<string>, p1: set<string>, p2: set<string>)
    requires Dropped(f, dry, kept, gone, p0, p1) && Dropped(f, dry, kept', gone', p1, p2)
    requires gone !! gone'
    ensures Dropped(f, dry, kept + kept', gone + gone', p0, p2)
  {
    CoveredUnion(f, kept, gone, kept', gone');
  }

  // ------------------------------------------------------------ the folder

  class Folder {
    const facts: Facts
    const dry: bool
    var present: set<string>

    constructor (facts: Facts, dry: bool, files: set<string>)
      ensures this.facts == facts && this.dry == dry && present == files
    {
      this.facts, this.dry, present := facts, dry, files;
    }

    /** The loop of `_resolve_dup_group`. */
    method DeleteOthers(group: set<string>, keep: string)
      requires keep in group
      modifies this`present
      ensures present == Without(dry, old(present), group - {keep})
    {
      var rest := group - {keep};
      while rest != {}
        invariant rest <= group - {keep} && present == Without(dry, old(present), group - {keep} - rest)
      {
        var dup :| dup in rest;
        assert group - {keep} - (rest - {dup}) == group - {keep} - rest + {dup};
        rest := rest - {dup};
        if !dry {
          present := present - {dup};
        }
      }
      assert group - {keep} - {} == group - {keep};
    }

    /** `_resolve_dup_group`: the largest CBZ stays, and the rest goes. */
    method ResolveDupGroup(group: set<string>) returns (keep: string)
      requires Sane(facts) && group != {} && forall p | p in group :: facts.pages(p).Some?
      modifies this`present
      ensures keep in group && facts.cbz(keep)
      // The largest, and among the largest the first by name in lower case.
      ensures forall p | p in group :: facts.size(keep) >= facts.size(p)
      ensures forall p | p in group && facts.size(p) == facts.size(keep) :: !Less(facts.lower(p), facts.lower(keep))
      ensures present == Without(dry, old(present), group - {keep})
    {
      var cbzFiles := set p | p in group && facts.cbz(p);
      keep := Largest(facts, if cbzFiles != {} then cbzFiles else group);
      assert cbzFiles == group;
      DeleteOthers(group, keep);
    }

    /** One part of a proposed group: several with the same pages become one, and a single one is kept. */
    method SettlePart(part: set<string>) returns (kept: set<string>)
      requires Sane(facts) && part != {}
      requires |part| >= 2 ==> OnePrint(facts, part)
      modifies this
      ensures GroupSettled(facts, dry, part, kept, old(present), present)
    {
      if |part| >= 2 {
        ghost var k :| forall p | p in part :: facts.pages(p) == Some(k);
        var keep := ResolveDupGroup(part);
        kept := {keep};
        forall p | p in part - kept ensures Redundant(facts, kept, p) {
          assert Covers(facts, keep, p);
        }
      } else {
        SingleSettled(facts, dry, part, present);
        kept := part;
      }
    }

    /** The parts with a fingerprint. */
    method SettleReadable(group: set<string>, byContent: map<string, set<string>>) returns (kept: set<string>)
      requires Sane(facts) && forall k | k in byContent :: byContent[k] == Under(group, facts.pages, k) != {}
      modifies this
      ensures GroupSettled(facts, dry, Keyed(group, facts.pages, byContent.Keys), kept, old(present), present)
    {
      ghost var done, seen: set<string> := {}, {};
      var rest := byContent.Keys;
      kept := {};
      while rest != {}
        invariant rest <= byContent.Keys && done == byContent.Keys - rest && seen == Keyed(group, facts.pages, done)
        invariant GroupSettled(facts, dry, seen, kept, old(present), present)
      {
        var k :| k in rest;
        rest := rest - {k};
        var part := byContent[k];
        OneKeyMore(group, facts.pages, done, k);
        PartApart(facts, group, done, k);
        ghost var present1 := present;
        var one := SettlePart(part);
        SettleStep(facts, dry, seen, part, kept, one, old(present), present1, present);
        kept := kept + one;
        done, seen := done + {k}, seen + part;
      }
      assert done == byContent.Keys;
    }

    /** The parts of one archive that proves nothing: each is kept. */
    method KeepUnreadable(seen: set<string>, unreadable: set<string>, kept: set<string>, ghost p0: set<string>)
      returns (all: set<string>)
      requires Sane(facts) && seen !! unreadable && forall p | p in unreadable :: facts.pages(p).None?
      requires GroupSettled(facts, dry, seen, kept, p0, present)
      modifies this
      ensures GroupSettled(facts, dry, seen + unreadable, all, p0, present)
    {
      all := kept;
      var rest := unreadable;
      ghost var done: set<string> := seen;
      while rest != {}
        invariant rest <= unreadable && done == seen + (unreadable - rest)
        invariant GroupSettled(facts, dry, done, all, p0, present)
      {
        var p :| p in rest;
        rest := rest - {p};
        ghost var present1 := present;
        var one := SettlePart({p});
        SettleStep(facts, dry, done, {p}, all, one, p0, present1, present);
        all := all + one;
        done := done + {p};
      }
      assert done == seen + unreadable;
    }

    /** The loop over the parts of one proposed group of several. */
    method SettleGroup(group: set<string>) returns (kept: set<string>)
      requires Sane(facts)
      modifies this
      ensures GroupSettled(facts, dry, group, kept, old(present), present)
    {
      var byContent, unreadable := SplitGroupByContent(facts, group);
      kept := SettleReadable(group, byContent);
      assert Keyed(group, facts.pages, byContent.Keys) == group - unreadable;
      kept := KeepUnreadable(group - unreadable, unreadable, kept, old(present));
      assert group - unreadable + unreadable == group;
    }

    /** A proposed group of one is kept; one of several is told apart by content. */
    method SettleProposed(group: set<string>) returns (kept: set<string>)
      requires Sane(facts)
      modifies this
      ensures GroupSettled(facts, dry, group, kept, old(present), present)
    {
      if |group| < 2 {
        SingleSettled(facts, dry, group, present);
        kept := group;
      } else {
        kept := SettleGroup(group);
      }
    }

    /** One pass: the groups a key proposes, each settled by content. */
    method Pass(items: set<string>, key: string -> Option<string>) returns (survivors: set<string>)
      requires Sane(facts)
      modifies this
      ensures Passed(facts, dry, key, WithKey(items, key), survivors, old(present), present)
    {
      var byKey := GroupBy(items, key);
      var rest := byKey.Keys;
      ghost var done, seen: set<string> := {}, {};
      survivors := {};
      while rest != {}
        invariant rest <= byKey.Keys && done == byKey.Keys - rest && seen == Keyed(items, key, done)
        invariant Passed(facts, dry, key, seen, survivors, old(present), present)
      {
        var k :| k in rest;
        rest := rest - {k};
        var group := byKey[k];
        OneKeyMore(items, key, done, k);
        ghost var present1 := present;
        var one := SettleProposed(group);
        PassStep(facts, dry, key, seen, survivors, group, one, old(present), present1, present);
        survivors := survivors + one;
        done, seen := done + {k}, seen + group;
      }
      assert done == byKey.Keys;
      assert seen == WithKey(items, key);
    }

    /** The second pass: ComicInfo keys among the surviving CBZ files. */
    method MetadataPass(ghost files: set<string>, survivors: set<string>) returns (ghost gone: set<string>)
      requires Sane(facts) && survivors <= files && Deduped(facts, dry, files, files - survivors, present)
      requires KeyCovered(facts, NameKey(facts), survivors, files - survivors)
      modifies this
      ensures Deduped(facts, dry, files, gone, present) && NoTwins(facts, MetaKey(facts), files - gone)
      ensures AllJustified(facts, true, files - gone, gone)
    {
      var cbz := set p | p in survivors && facts.cbz(p) && facts.meta(p).Some?;
      ghost var between := present;
      var kept := Pass(cbz, MetaKey(facts));
      AllKeyed(facts, cbz);
      assert files - (files - survivors) == survivors;
      PassesCompose(facts, dry, files, survivors, cbz, kept, between, present);
      StillNoTwins(facts, files, survivors, cbz, kept);
      JustifiedTwice(facts, files, survivors, cbz, kept);
      gone := files - survivors + (cbz - kept);
    }
  }

  function NameKey(f: Facts): string -> Option<string> {
    p => Some(f.key(p))
  }

  /** Only a CBZ can be opened to read ComicInfo. */
  function MetaKey(f: Facts): string -> Option<string> {
    p => if f.cbz(p) then f.meta(p) else None
  }

  /** `gone` was dropped from the folder, each with proof by something that stays, and no two that stay have one name key
      and the same pages. */
  ghost predicate Deduped(f: Facts, dry: bool, files: set<string>, gone: set<string>, present: set<string>) {
    gone <= files && Dropped(f, dry, files - gone, gone, files, present) && NoTwins(f, NameKey(f), files - gone)
  }

  /** The name key proposed the pair, and the pages prove it. */
  predicate NameProves(f: Facts, q: string, p: string) {
    f.key(q) == f.key(p) && Covers(f, q, p)
  }

  /** The metadata of two CBZ files proposed the pair, and the pages prove it. */
  predicate MetaProves(f: Facts, r: string, q: string) {
    f.cbz(q) && f.cbz(r) && f.meta(q).Some? && f.meta(r) == f.meta(q) && Covers(f, r, q)
  }

  /** One that stays has the name key and the pages of `p`; or, with metadata, one that stays has the ComicInfo key and the
      pages of `p` itself or of the archive that took its place by name. */
  ghost predicate Justified(f: Facts, useMetadata: bool, stay: set<string>, p: string) {
    || (exists q :: q in stay && NameProves(f, q, p))
    || (useMetadata && exists q, r :: r in stay && (q == p || NameProves(f, q, p)) && MetaProves(f, r, q))
  }

  ghost predicate AllJustified(f: Facts, useMetadata: bool, stay: set<string>, gone: set<string>) {
    forall p | p in gone :: Justified(f, useMetadata, stay, p)
  }

  lemma JustifiedOnce(f: Facts, stay: set<string>, gone: set<string>)
    requires KeyCovered(f, NameKey(f), stay, gone)
    ensures AllJustified(f, false, stay, gone) && AllJustified(f, true, stay, gone)
  {
    forall p | p in gone ensures exists q :: q in stay && NameProves(f, q, p) {
      var q :| q in stay && KeyCovers(f, NameKey(f), q, p);
      assert NameProves(f, q, p);
    }
  }

  lemma JustifiedTwice(f: Facts, files: set<string>, survivors: set<string>, cbz: set<string>, kept: set<string>)
    requires survivors <= files && kept <= cbz <= survivors
    requires KeyCovered(f, NameKey(f), survivors, files - survivors) && KeyCovered(f, MetaKey(f), kept, cbz - kept)
    ensures var gone := files - survivors + (cbz - kept); AllJustified(f, true, files - gone, gone)
  {
    var gone := files - survivors + (cbz - kept);
    var stay := files - gone;
    forall p | p in gone ensures Justified(f, true, stay, p) {
      if p in survivors {
        MetaJustified(f, kept, cbz, stay, p, p);
      } else {
        var q :| q in survivors && KeyCovers(f, NameKey(f), q, p);
        assert NameProves(f, q, p);
        if q in gone {
          MetaJustified(f, kept, cbz, stay, q, p);
        }
      }
    }
  }

  lemma MetaJustified(f: Facts, kept: set<string>, cbz: set<string>, stay: set<string>, q: string, p: string)
    requires KeyCovered(f, MetaKey(f), kept, cbz - kept) && q in cbz - kept && kept <= stay
    requires q == p || NameProves(f, q, p)
    ensures Justified(f, true, stay, p)
  {
    var r :| r in kept && KeyCovers(f, MetaKey(f), r, q);
    assert r in stay && MetaProves(f, r, q);
  }

  /** No two that stay have one name key and the same pages, nor with metadata one ComicInfo key and the same pages. */
  ghost predicate NoneLeft(f: Facts, useMetadata: bool, stay: set<string>) {
    forall p, q | p in stay && q in stay && p != q && SamePages(f, p, q) ::
      && f.key(p) != f.key(q)
      && (useMetadata && f.cbz(p) && f.cbz(q) && f.meta(p).Some? ==> f.meta(p) != f.meta(q))
  }

  lemma NoTwinsLeft(f: Facts, useMetadata: bool, stay: set<string>)
    requires NoTwins(f, NameKey(f), stay) && (useMetadata ==> NoTwins(f, MetaKey(f), stay))
    ensures NoneLeft(f, useMetadata, stay)
  {
    forall p, q | p in stay && q in stay && p != q && SamePages(f, p, q)
      ensures f.key(p) != f.key(q)
      ensures useMetadata && f.cbz(p) && f.cbz(q) && f.meta(p).Some? ==> f.meta(p) != f.meta(q)
    {
      assert !Twins(f, NameKey(f), p, q);
      assert useMetadata ==> !Twins(f, MetaKey(f), p, q);
    }
  }

  /** `dedupe_archives_in_dir` */
  method Dedupe(facts: Facts, dry: bool, files: set<string>, useMetadata: bool) returns (folder: Folder, ghost gone: set<string>)
    requires Sane(facts)
    ensures folder.facts == facts && folder.dry == dry
    ensures Deduped(facts, dry, files, gone, folder.present)
    ensures AllJustified(facts, useMetadata, files - gone, gone) && NoneLeft(facts, useMetadata, files - gone)
  {
    hide KeyCovered, Justified, NoTwins, NoneLeft, Dropped;
    folder := new Folder(facts, dry, files);
    gone := {};
    if |files| < 2 {
      SingleDeduped(facts, dry, files);
      NoTwinsLeft(facts, useMetadata, files - gone);
      return;
    }
    var survivors := folder.Pass(files, NameKey(facts));
    gone := files - survivors;
    FirstDeduped(facts, dry, files, survivors, folder.present);
    JustifiedOnce(facts, survivors, gone);
    if useMetadata {
      if |survivors| > 1 {
        gone := folder.MetadataPass(files, survivors);
      } else {
        AtMostOne(survivors);
      }
    }
    assert gone == files - survivors ==> files - gone == survivors;
    NoTwinsLeft(facts, useMetadata, files - gone);
  }

  /** Of a group, what was kept has distinct pages, and the rest was dropped. */
  ghost predicate GroupSettled(f: Facts, dry: bool, group: set<string>, kept: set<string>, p0: set<string>,
                               p1: set<string>) {
    kept <= group && Distinct(f, kept) && Dropped(f, dry, kept, group - kept, p0, p1)
  }

  lemma SettleStep(f: Facts, dry: bool, seen: set<string>, part: set<string>, kept: set<string>, one: set<string>,
                   p0: set<string>, p1: set<string>, p2: set<string>)
    requires GroupSettled(f, dry, seen, kept, p0, p1) && part !! seen
    requires Apart(f, part, seen)
    requires GroupSettled(f, dry, part, one, p1, p2)
    ensures GroupSettled(f, dry, seen + part, kept + one, p0, p2)
  {
    DroppedBoth(f, dry, kept, seen - kept, one, part - one, p0, p1, p2);
    assert seen - kept + (part - one) == seen + part - (kept + one);
    DistinctMore(f, kept, one);
  }

  lemma DistinctMore(f: Facts, kept: set<string>, one: set<string>)
    requires Distinct(f, kept) && Distinct(f, one)
    requires Apart(f, one, kept)
    ensures Distinct(f, kept + one)
  {
    forall p, q | p in kept + one && q in kept + one && p != q ensures !SamePages(f, p, q) {
      assert SamePages(f, p, q) <==> SamePages(f, q, p);
    }
  }

  // ------------------------------------------------------------ a pass over all proposed groups

  /** A pass went over `items`: what it kept has no twins under the key, and the rest was dropped. */
  ghost predicate Passed(f: Facts, dry: bool, key: string -> Option<string>, items: set<string>, kept: set<string>,
                         p0: set<string>, p1: set<string>) {
    && kept <= items && NoTwins(f, key, kept) && Dropped(f, dry, kept, items - kept, p0, p1)
    && KeyCovered(f, key, kept, items - kept)
  }

  lemma PassStep(f: Facts, dry: bool, key: string -> Option<string>, seen: set<string>, kept: set<string>,
                 group: set<string>, one: set<string>, p0: set<string>, p1: set<string>, p2: set<string>)
    requires Passed(f, dry, key, seen, kept, p0, p1) && group !! seen
    requires KeysApart(key, group, seen) && forall p, q | p in group && q in group :: SameKey(key, p, q)
    requires GroupSettled(f, dry, group, one, p1, p2)
    ensures Passed(f, dry, key, seen + group, kept + one, p0, p2)
  {
    GroupKeyCovered(f, key, seen, kept, group, one);
    DroppedBoth(f, dry, kept, seen - kept, one, group - one, p0, p1, p2);
    assert seen - kept + (group - one) == seen + group - (kept + one);
    forall p, q | p in kept + one && q in kept + one && p != q ensures !Twins(f, key, p, q) {
      assert SameKey(key, p, q) ==> SameKey(key, q, p);
    }
  }

  lemma GroupKeyCovered(f: Facts, key: string -> Option<string>, seen: set<string>, kept: set<string>,
                        group: set<string>, one: set<string>)
    requires KeyCovered(f, key, kept, seen - kept) && Covered(f, one, group - one) && one <= group && group !! seen
    requires forall p, q | p in group && q in group :: SameKey(key, p, q)
    ensures KeyCovered(f, key, kept + one, seen + group - (kept + one))
  {
    forall p | p in seen + group - (kept + one) ensures exists q :: q in kept + one && KeyCovers(f, key, q, p) {
      if p in seen {
        assert p in seen - kept;
        var q :| q in kept && KeyCovers(f, key, q, p);
        assert q in kept + one;
      } else {
        assert Redundant(f, one, p);
        var q :| q in one && Covers(f, q, p);
        assert q in kept + one && KeyCovers(f, key, q, p);
      }
    }
  }

  lemma SingleSettled(f: Facts, dry: bool, group: set<string>, present: set<string>)
    requires |group| < 2
    ensures GroupSettled(f, dry, group, group, present, present)
  {
    assert group - group == {};
    AtMostOne(group);
  }

  lemma AtMostOne(group: set<string>)
    requires |group| < 2
    ensures forall p, q | p in group && q in group :: p == q
  {
    forall p | p in group ensures group == {p} {
      assert |group - {p}| == 0;
      assert group == {p} + (group - {p});
    }
  }

  /** What a pass did to some of the files, after an earlier pass. */
  lemma PassesCompose(f: Facts, dry: bool, files: set<string>, first: set<string>, items: set<string>, second: set<string>,
                      p1: set<string>, p2: set<string>)
    requires first <= files && items <= first && second <= items
    requires Dropped(f, dry, first, files - first, files, p1) && Dropped(f, dry, second, items - second, p1, p2)
    ensures var gone := files - first + (items - second);
      Dropped(f, dry, files - gone, gone, files, p2)
  {
    var gone1, gone2 := files - first, items - second;
    assert files - gone1 == first && items - gone2 == second;
    CoveredTwice(f, files, gone1, items, gone2);
  }

  lemma SingleDeduped(f: Facts, dry: bool, files: set<string>)
    requires |files| < 2
    ensures Deduped(f, dry, files, {}, files) && NoTwins(f, MetaKey(f), files - {})
  {
    AtMostOne(files);
    assert files - {} == files;
  }

  lemma FirstDeduped(f: Facts, dry: bool, files: set<string>, survivors: set<string>, present: set<string>)
    requires Passed(f, dry, NameKey(f), WithKey(files, NameKey(f)), survivors, files, present)
    ensures survivors <= files && Deduped(f, dry, files, files - survivors, present)
    ensures KeyCovered(f, NameKey(f), survivors, files - survivors)
  {
    AllNamed(f, files);
    assert files - (files - survivors) == survivors;
  }

  lemma AllNamed(f: Facts, files: set<string>)
    ensures WithKey(files, NameKey(f)) == files
  {
  }

  lemma AllKeyed(f: Facts, cbz: set<string>)
    requires forall p | p in cbz :: f.cbz(p) && f.meta(p).Some?
    ensures WithKey(cbz, MetaKey(f)) == cbz
  {
  }

  /** The second pass takes away only: names stay without twins; and archives it did not look at have no key. */
  lemma StillNoTwins(f: Facts, files: set<string>, survivors: set<string>, cbz: set<string>, kept: set<string>)
    requires survivors <= files && kept <= cbz && cbz == set p | p in survivors && f.cbz(p) && f.meta(p).Some?
    requires NoTwins(f, NameKey(f), survivors) && NoTwins(f, MetaKey(f), kept)
    ensures var stay := files - (files - survivors + (cbz - kept));
      NoTwins(f, NameKey(f), stay) && NoTwins(f, MetaKey(f), stay)
  {
  }
}
