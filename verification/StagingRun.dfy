/**
 Staging one review case, recovering it, and the operator's moves, as the step-by-step code of
 scripts/cbz_classification_staging.py, with a crash possible between any two steps and others editing the
 source whenever they like.

 `Interfere` stands between every two steps. It may replace the source by anything and it may end the process,
 so what a method ensures on return holds at every crash point. Every change the program makes to the store goes through
 `Commit`, which also keeps the ghost account of what the program has destroyed. The files that the inventory skips are
 a second state, `skipped`: no check ever looks at it.
 */
module StagingRun {
  import opened Outcomes
  import opened StagingStore

  datatype StagingError =
    | ManifestInvalid
    | CaseCollision
    | PartialRecoveryRequired
    | InsufficientSpace
    | PayloadChanged       // still moving
    | SourceChanged        // settled at other content
    | StagedPayloadMismatch
    | SourceMissing
    | TargetOccupied
    | LockHeld             // every attempt at a rename met a held handle

  datatype Outcome = Done | NothingToDo | Refused | Crashed | Raised(error: StagingError)
  {
    predicate IsFailure() { !Done? }
    function PropagateFailure(): Outcome { this }
  }

  /** What `_replace` rechecks after waiting for a lock. */
  datatype Recheck =
    | NoRecheck
    | SourceStillMatches
    | OperatorStillReady(seen: Manifest, verifyPayload: bool, target: Move)

  const REPLACE_ATTEMPTS := 7

  /** `s'` is `s` after `move`, others having left some source there just before. */
  ghost predicate MovedBy(s: Store, move: Move, s': Store) {
    exists source: Option<Tree> ::
      Movable(s.(source := source), move) && s' == Moved(s.(source := source), move)
  }

  /** What is left of a directory that is being removed. */
  ghost predicate DirShrank(was: CaseDir, now: CaseDir) {
    if now.Holding? then was.Holding? && Contains(was.tree, now.tree) else now == was
  }

  /** Files that are missing once stay missing. */
  lemma ShrinkingLoses(first: CaseDir, now: CaseDir, files: Tree)
    requires DirShrank(first, now)
    ensures DirContains(now, files) ==> DirContains(first, files)
    ensures !now.Holding? ==> !DirContains(now, files)
    ensures !DirContains(Missing, files)
  {
  }

  lemma NothingRemoved(d: CaseDir)
    ensures DirShrank(d, d)
  {
  }

  lemma ShrinkMore(first: CaseDir, before: CaseDir, now: CaseDir)
    requires DirShrank(first, before) && DirShrank(before, now) && before.Holding? && now.Holding?
    ensures DirShrank(first, now)
  {
  }

  /** The copy has the files of the source but for those still to do. */
  ghost predicate PartCopied(source: Tree, copy: Tree, todo: set<string>) {
    && copy.Keys !! todo && source.Keys == copy.Keys + todo
    && forall name | name in copy :: copy[name] == source[name]
  }

  /** The files that are no longer in `rest` were copied. */
  ghost predicate GoneWereCopied(copy: Tree, source: Tree, rest: Tree) {
    forall name | name in source && name !in rest :: name in copy && copy[name] == source[name]
  }

  lemma NoneOrAllGone(copy: Tree, source: Tree)
    ensures GoneWereCopied(copy, source, source) && Contains(source, source)
    ensures GoneWereCopied(copy, source, map[]) == Contains(copy, source)
  {
  }

  lemma ContainedIsCopied(copy: Tree, source: Tree, rest: Tree)
    requires Contains(copy, source)
    ensures GoneWereCopied(copy, source, rest)
  {
  }

  lemma OneMoreGone(copy: Tree, source: Tree, rest: Tree, name: string)
    requires Contains(source, rest) && name in rest
    ensures Contains(source, rest - {name})
    ensures GoneWereCopied(copy, source, rest - {name}) <==>
      GoneWereCopied(copy, source, rest) && name in copy && copy[name] == rest[name]
    ensures |rest - {name}| < |rest|
  {
    assert (rest - {name}).Keys == rest.Keys - {name};
  }

  lemma OneMoreCopied(source: Tree, copy: Tree, todo: set<string>, name: string)
    requires PartCopied(source, copy, todo) && name in todo
    ensures name in source && PartCopied(source, copy[name := source[name]], todo - {name})
  {
  }

  /** An edit of the source before the move is one `MovedBy` allows. */
  lemma MovedByFromEdited(s: Store, edited: Store, move: Move, after: Store)
    requires edited == s.(source := edited.source) && MovedBy(edited, move, after)
    ensures MovedBy(s, move, after)
  {
    var source: Option<Tree> :| Movable(edited.(source := source), move) && after == Moved(edited.(source := source), move);
    assert edited.(source := source) == s.(source := source);
  }

  /** Neither what is renamed nor where to is the source. */
  predicate SourceIsAside(move: Move) {
    move.PartialToPending? || move.PendingToRejected? || move.PayloadToLibrary?
  }

  /** The preconditions of an operator's move hold: the record is still the one the operator was shown and awaits a
      decision, nothing is where the move goes, and the payload verifies if that is asked. */
  predicate StillReady(s: Store, payload: Tree, check: Recheck) {
    check.OperatorStillReady? ==>
      && s.record == Filed(check.seen) && check.seen.state == PendingReview && MoveTargetFree(s, check.target)
      && (check.verifyPayload ==> s.pending == Holding(payload))
  }

  /** An edit of the source changes nothing about a move between other places. */
  lemma SameReadiness(s: Store, s': Store, payload: Tree, move: Move, check: Recheck)
    requires s' == s.(source := s'.source)
    ensures SourceIsAside(move) || s == s' ==>
      && MoveSourceExists(s', move) == MoveSourceExists(s, move) && Movable(s', move) == Movable(s, move)
      && (check.OperatorStillReady? && check.target == move ==> StillReady(s', payload, check) == StillReady(s, payload, check))
  {
  }

  lemma ElsewhereIsOutsidePartial(s: Store, s': Store, files: Tree)
    requires s' == s.(partial := s'.partial)
    ensures HeldElsewhere(s', files) == HeldElsewhere(s, files)
  {
  }

  lemma NothingCopied(source: Tree)
    ensures PartCopied(source, map[], source.Keys)
  {
  }

  lemma AllCopied(source: Tree, copy: Tree)
    requires PartCopied(source, copy, {})
    ensures copy == source
  {
  }

  class CaseRun {
    var st: Store
    const expected: Tree
    const transfer: TransferMethod
    var skipped: Skipped

    /** How often others changed the source, and how often that made it appear or vanish. */
    ghost var edits: nat
    ghost var comings: nat
    /** A step of the program destroyed or duplicated a complete tree. */
    ghost var altered: bool
    /** A step of the program removed the last complete copy of the payload. */
    ghost var lost: bool
    /** The copied source when the program first deleted from it. */
    ghost var releasedFrom: Option<Tree>
    /** How often others changed the skipped files of the source. */
    ghost var sideEdits: nat
    /** A step of the program deleted a skipped file of the source that was not copied. */
    ghost var uncopied: bool
    /** How often the last rename was tried. */
    ghost var attempts: nat
    /** The source was seen to be the payload since `.partial` was last written (copy) or a rename of it last waited. */
    ghost var confirmed: bool

    ghost predicate StagedCopiesAreFaithful()
      reads `st
    {
      && (st.pending.Holding? ==> st.pending.tree == expected)
      && (st.rejected.Holding? ==> st.rejected.tree == expected)
      && (st.library.FiledAt? ==> st.library.tree == expected)
    }

    ghost predicate HeldBeyondSource()
      reads `st
    {
      st.pending == Holding(expected) || st.rejected == Holding(expected)
      || (st.library.FiledAt? && st.library.tree == expected)
    }

    /** What every operation keeps, whatever others do to the source and wherever it crashes. */
    ghost predicate Valid()
      reads `st, `edits, `comings, `altered, `lost, `releasedFrom
    {
      && expected != map[]
      && (st.record.Filed? ==> Describes(st.record, transfer, expected))
      && match transfer
         case CopyVerify =>
           && StagedCopiesAreFaithful()
           && (releasedFrom.Some? ==> releasedFrom.value == expected && HeldBeyondSource())
           && (edits == 0 ==> !lost && (st.source == Some(expected) || releasedFrom.Some?))
         case Rename =>
           && !altered && !lost && releasedFrom.None?
           && (comings == 0 ==> Occupied(st) == 1)
           && (edits == 0 ==> Copies(st, expected) == 1)
    }

    /** A transfer may start: planned but nothing recorded, the source whole. */
    ghost predicate Fresh()
      reads `st
    {
      && st.record == NoRecord && st.pending.Missing? && st.source == Some(expected)
      && (transfer == Rename ==> !st.partial.Holding?)
    }

    ghost predicate InterruptedHere()
      reads `st
    {
      Interrupted(st, transfer, expected)
    }

    ghost predicate PublishedHere()
      reads `st
    {
      Published(st, transfer, expected)
    }

    /** The record is still the one the operator was shown, and still awaits a decision. */
    predicate OperatorReady(seen: Manifest)
      reads `st
    {
      st.record == Filed(seen) && seen.state == PendingReview
    }

    /** The transfer was recorded and did not get to `pending`, and its source is there but is another payload now. */
    ghost predicate SourceMovedOn()
      reads `st
    {
      && !HandsOff(st) && !Unexplained(st) && st.pending.Missing?
      && st.source.Some? && st.source.value != expected
    }

    /** `.partial` has the whole payload and no other place does. */
    ghost predicate OnlyInPartial()
      reads `st
    {
      DirContains(st.partial, expected) && !HeldElsewhere(st, expected)
    }

    /** No skipped file was destroyed, and those of the source change only by others' edits. */
    twostate predicate SkippedKept()
      reads this
    {
      && uncopied == old(uncopied) && sideEdits >= old(sideEdits)
      && (sideEdits == old(sideEdits) ==> skipped.source == old(skipped.source))
    }

    /** The program changed nothing; others may have edited the source. */
    twostate predicate Untouched()
      reads this
    {
      && st == old(st).(source := st.source) && skipped == old(skipped).(source := skipped.source)
      && edits >= old(edits) && (edits == old(edits) ==> st == old(st))
      && lost == old(lost) && releasedFrom == old(releasedFrom) && SkippedKept()
    }

    constructor (source: Tree, aside: Tree, transfer: TransferMethod, taken: set<string>)
      requires source != map[]
      ensures Valid() && Fresh() && Startable()
      ensures expected == source && this.transfer == transfer
      ensures edits == 0 && comings == 0 && !altered && !lost && releasedFrom.None?
      ensures skipped == Skipped(aside, map[], map[], map[], map[]) && sideEdits == 0 && !uncopied
    {
      st := Store(Some(source), Missing, Missing, Missing, NotFiled, taken, NoRecord);
      expected := source;
      this.transfer := transfer;
      skipped := Skipped(aside, map[], map[], map[], map[]);
      edits, comings, altered, lost, releasedFrom := 0, 0, false, false, None;
      sideEdits, uncopied, attempts, confirmed := 0, false, 0, false;
    }

    // ---------------------------------------------------------- the world and the disk

    /** Others may edit the source and its skipped files (if `editable`), and the process may die. */
    method Interfere(editable: bool) returns (o: Outcome)
      requires Valid()
      modifies this`st, this`edits, this`comings, this`skipped, this`sideEdits
      ensures Valid() && Untouched()
      ensures !editable ==> edits == old(edits) && sideEdits == old(sideEdits)
      ensures o in {Done, Crashed}
    {
      if editable {
        var source: Option<Tree>, files: Tree := *, *;
        if files != skipped.source {
          sideEdits := sideEdits + 1;
          skipped := skipped.(source := files);
        }
        if source != st.source {
          edits := edits + 1;
          if source.None? || st.source.None? {
            comings := comings + 1;
          }
          st := st.(source := source);
        }
      }
      var dies := *;
      o := if dies then Crashed else Done;
    }

    /** One atomic change made by the program. On the copy path the source is only ever deleted from while the
        payload is published, and first when it is exactly what was copied. */
    method Commit(next: Store)
      requires transfer == CopyVerify && next.source != st.source ==>
                 st.pending == Holding(expected) && (releasedFrom.None? ==> st.source == Some(expected))
      modifies this`st, this`altered, this`lost, this`releasedFrom
      ensures st == next
      ensures altered == (old(altered) || !SameTrees(old(st), next))
      ensures lost == (old(lost) || (Holds(old(st), expected) && !Holds(next, expected)))
      ensures releasedFrom ==
        if transfer == CopyVerify && next.source != old(st.source) && old(releasedFrom).None? then old(st.source)
        else old(releasedFrom)
    {
      altered := altered || !SameTrees(st, next);
      lost := lost || (Holds(st, expected) && !Holds(next, expected));
      if transfer == CopyVerify && next.source != st.source && releasedFrom.None? {
        releasedFrom := st.source;
      }
      st := next;
    }

    /** `CaseManifest.write`: the record is replaced whole. */
    method WriteRecord(state: CaseState)
      requires Valid()
      modifies this`st, this`altered, this`lost, this`releasedFrom
      ensures Valid()
      ensures exists stamp :: st == old(st).(record := Filed(Manifest(state, transfer, expected, stamp)))
      ensures altered == old(altered) && lost == old(lost) && releasedFrom == old(releasedFrom)
    {
      var now: nat := *;
      var next := st.(record := Filed(Manifest(state, transfer, expected, now)));
      assert SameTrees(st, next);
      Commit(next);
    }

    /** A change of .partial alone. It loses the payload exactly when only .partial had it and no longer has. */
    method CommitPartial(next: CaseDir)
      requires Valid() && (transfer == Rename ==> !st.partial.Holding? && !next.Holding?)
      modifies this`st, this`altered, this`lost, this`releasedFrom, this`confirmed
      ensures Valid() && st == old(st).(partial := next)
      ensures confirmed == (old(confirmed) && transfer == Rename)
      ensures lost == (old(lost) || (old(OnlyInPartial()) && !DirContains(next, expected)))
      ensures releasedFrom == old(releasedFrom)
    {
      Commit(st.(partial := next));
      confirmed := confirmed && transfer == Rename;
    }

    /** The staging directory is made where there is none. */
    method MakePartial()
      requires Valid() && st.partial.Missing?
      modifies this`st, this`altered, this`lost, this`releasedFrom, this`confirmed
      ensures confirmed == (old(confirmed) && transfer == Rename)
      ensures Valid() && st == old(st).(partial := Scaffold)
      ensures lost == old(lost) && releasedFrom == old(releasedFrom)
    {
      assert !OnlyInPartial();
      CommitPartial(Scaffold);
    }

    /** A deletion from a copied source. */
    method CommitSource(next: Option<Tree>)
      requires Valid() && transfer == CopyVerify && st.pending == Holding(expected)
      requires next != st.source && (releasedFrom.None? ==> st.source == Some(expected))
      modifies this`st, this`altered, this`lost, this`releasedFrom
      ensures Valid() && st == old(st).(source := next)
      ensures lost == old(lost) && releasedFrom.Some?
    {
      Commit(st.(source := next));
    }

    /** A rename, with the skipped files in what is renamed. */
    method CommitMove(move: Move)
      requires Valid() && Movable(st, move)
      requires move.PartialToPending? && transfer == CopyVerify ==> st.partial == Holding(expected)
      requires move.SourceToPartial? || move.PayloadToSource? ==> transfer == Rename
      modifies this`st, this`altered, this`lost, this`releasedFrom, this`skipped
      ensures Valid() && st == Moved(old(st), move) && skipped == SkippedMoved(old(skipped), move)
      ensures lost == old(lost) && releasedFrom == old(releasedFrom)
    {
      MovesConserveTrees(st, move);
      Commit(Moved(st, move));
      skipped := SkippedMoved(skipped, move);
    }

    /** `revalidate_source`: the source, read at one instant, is what this case was minted from. */
    method RevalidateSource() returns (o: Outcome)
      requires Valid()
      modifies this`st, this`edits, this`comings, this`skipped, this`sideEdits, this`confirmed
      ensures Valid() && Untouched()
      ensures o.Done? ==> st.source == Some(expected)
      ensures confirmed == (old(confirmed) || o.Done?)
      ensures edits == old(edits) && st.source == Some(expected) ==> o in {Done, Crashed}
      ensures o.Raised? ==>
        o in (if st.source.None? then {Raised(SourceMissing)} else {Raised(PayloadChanged), Raised(SourceChanged)})
      ensures !o.NothingToDo? && !o.Refused?
    {
      o := Interfere(true);
      if o.IsFailure() {
        return;
      }
      var moving: bool := *;
      if st.source.None? {
        o := Raised(SourceMissing);
      } else if st.source.value == expected {
        o, confirmed := Done, true;
      } else if moving {
        o := Raised(PayloadChanged);
      } else {
        o := Raised(SourceChanged);
      }
    }

    // ---------------------------------------------------------- os.replace, retried

    method CheckAgain(check: Recheck) returns (o: Outcome)
      requires Valid()
      modifies this`st, this`edits, this`comings, this`skipped, this`sideEdits, this`confirmed
      ensures Valid() && Untouched()
      ensures confirmed == (old(confirmed) || (o.Done? && check.SourceStillMatches?))
      ensures o.Done? && check.SourceStillMatches? ==> st.source == Some(expected)
      ensures check.OperatorStillReady? ==> o in (if StillReady(st, expected, check) then {Done, Crashed} else {Refused, Crashed})
      ensures check.NoRecheck? ==> o in {Done, Crashed}
      ensures o.Raised? ==>
        check.SourceStillMatches? && o in {Raised(SourceMissing), Raised(PayloadChanged), Raised(SourceChanged)}
      ensures edits == old(edits) && check.SourceStillMatches? && st.source == Some(expected) ==> o in {Done, Crashed}
      ensures o.Refused? ==> check.OperatorStillReady?
      ensures !o.NothingToDo?
    {
      match check
      case NoRecheck =>
        o := Interfere(true);
      case SourceStillMatches =>
        o := RevalidateSource();
      case OperatorStillReady(seen, verifyPayload, target) =>
        o := Interfere(true);
        if o.IsFailure() {
          return;
        }
        if !OperatorReady(seen)
        || (verifyPayload && st.pending != Holding(expected))
        || !MoveTargetFree(st, target) {
          o := Refused;
        }
    }

    /** Which case may make which move: a source is moved in, and a copy published, only when the source was seen to be the
        payload. */
    ghost predicate MayMove(move: Move)
      reads `st, `confirmed
    {
      && (move.PartialToPending? && transfer == CopyVerify ==> st.partial == Holding(expected) && confirmed)
      && (move.SourceToPartial? || move.PayloadToSource? ==> transfer == Rename)
      && (move.SourceToPartial? ==> confirmed)
    }

    /** The move was made, and took the skipped files of its directory with it. */
    twostate predicate MoveMade(move: Move)
      reads this
    {
      && MovedBy(old(st), move, st)
      && (edits == old(edits) ==> Movable(old(st), move) && st == Moved(old(st), move))
      && (sideEdits == old(sideEdits) ==> skipped == SkippedMoved(old(skipped), move))
      && edits >= old(edits) && sideEdits >= old(sideEdits)
      && lost == old(lost) && releasedFrom == old(releasedFrom) && uncopied == old(uncopied)
    }

    /** One attempt at a rename; `blocked` when a held handle prevented it. */
    method TryMove(move: Move) returns (o: Outcome, blocked: bool)
      requires Valid() && MayMove(move)
      modifies this
      ensures Valid()
      ensures if o.Done? && !blocked then MoveMade(move) else Untouched()
      ensures attempts == old(attempts) && confirmed == old(confirmed)
      ensures o in {Done, Crashed, Raised(SourceMissing), Raised(TargetOccupied)}
      ensures edits == old(edits) || SourceIsAside(move) ==>
        (old(Movable(st, move)) ==> o in {Done, Crashed})
        && (old(!MoveSourceExists(st, move)) ==> o in {Raised(SourceMissing), Crashed})
    {
      blocked := *;
      o := Interfere(true);
      if o.IsFailure() {
        return;
      }
      SameReadiness(old(st), st, expected, move, NoRecheck);
      if !MoveSourceExists(st, move) {
        o := Raised(SourceMissing);
      } else if !MoveTargetFree(st, move) {
        o := Raised(TargetOccupied);
      } else if !blocked {
        assert old(st).(source := st.source) == st;
        CommitMove(move);
      }
    }


    /** An operator's move could be made, and others did not change that. */
    twostate predicate OnTrack(move: Move, check: Recheck)
      reads this
    {
      && check.OperatorStillReady? && check.target == move && old(Movable(st, move) && StillReady(st, expected, check))
      && (edits == old(edits) || SourceIsAside(move))
    }

    /** Wait for the handle; what is moved must still be there. */
    method Wait(move: Move) returns (o: Outcome)
      requires Valid()
      modifies this`st, this`edits, this`comings, this`skipped, this`sideEdits, this`confirmed
      ensures Valid() && Untouched() && confirmed == (old(confirmed) && !move.SourceToPartial?)
      ensures o == Crashed || o == if MoveSourceExists(st, move) then Done else Raised(LockHeld)
    {
      hide Valid, MoveSourceExists;
      confirmed := confirmed && !move.SourceToPartial?;
      o := Interfere(true);
      if o.IsFailure() {
        return;
      }
      if !MoveSourceExists(st, move) {
        o := Raised(LockHeld);
      }
    }

    /** Wait for the handle, then see whether the move still makes sense. */
    method WaitAndCheck(move: Move, check: Recheck) returns (o: Outcome)
      requires Valid()
      modifies this`st, this`edits, this`comings, this`skipped, this`sideEdits, this`confirmed
      ensures Valid() && Untouched()
      ensures OnTrack(move, check) ==> o in {Done, Crashed}
      ensures o.Done? && check.SourceStillMatches? ==> st.source == Some(expected)
      ensures o.Done? && check.OperatorStillReady? ==> StillReady(st, expected, check)
      ensures o.Done? && SourceIsAside(move) ==> MoveSourceExists(st, move)
      ensures o.Raised? ==>
        (o == Raised(LockHeld) && !((edits == old(edits) || SourceIsAside(move)) && old(MoveSourceExists(st, move))))
        || (check.SourceStillMatches? && o in {Raised(SourceMissing), Raised(PayloadChanged), Raised(SourceChanged)}
            && !(edits == old(edits) && old(st.source) == Some(expected)))
      ensures o.Done? ==> confirmed == (check.SourceStillMatches? || (old(confirmed) && !move.SourceToPartial?))
      ensures o.Refused? ==> check.OperatorStillReady?
      ensures !o.NothingToDo?
    {
      hide Valid, StillReady, MoveSourceExists, MoveTargetFree, SourceIsAside;
      o := Wait(move);
      SameReadiness(old(st), st, expected, move, check);
      if o.IsFailure() {
        return;
      }
      o := CheckAgain(check);
      SameReadiness(old(st), st, expected, move, check);
    }

    /** One attempt, and the wait after it unless it was the last; `again` when nothing speaks against another. */
    method Attempt(move: Move, check: Recheck, last: bool) returns (o: Outcome, again: bool)
      requires Valid() && MayMove(move) && (move.SourceToPartial? ==> check.SourceStillMatches?)
      modifies this
      ensures Valid()
      ensures if o.Done? then MoveMade(move) else Untouched()
      ensures edits == old(edits) && old(Movable(st, move)) && check.NoRecheck? ==>
        o in {Done, Crashed, Raised(LockHeld)}
      ensures edits == old(edits) && old(Movable(st, move)) && old(st.source) == Some(expected)
        ==> check.OperatorStillReady? || o in {Done, Crashed, Raised(LockHeld)}
      ensures OnTrack(move, check) ==> o in {Done, Crashed, Raised(LockHeld)}
      ensures old(!MoveSourceExists(st, move)) && SourceIsAside(move) ==> !again && o in {Raised(SourceMissing), Crashed}
      ensures o.Refused? ==> check.OperatorStillReady?
      // Another attempt follows only a recheck that held.
      ensures again ==> MayMove(move)
      ensures again && check.SourceStillMatches? ==> st.source == Some(expected)
      ensures again && check.OperatorStillReady? ==> StillReady(st, expected, check)
      ensures !o.NothingToDo? && (again ==> o == Raised(LockHeld) && !last) && attempts == old(attempts) + 1
      ensures (edits == old(edits) || SourceIsAside(move)) && old(MoveSourceExists(st, move)) && o == Raised(LockHeld) ==>
        again || last
    {
      hide Valid, MovedBy, Moved, SkippedMoved, MoveSourceExists, MoveTargetFree, Movable, StillReady, SourceIsAside;
      again := false;
      var blocked;
      o, blocked := TryMove(move);
      attempts := attempts + 1;
      if (o.Done? && !blocked) || !o.Done? {
        return;
      }
      if last {
        return Raised(LockHeld), false;
      }
      SameReadiness(old(st), st, expected, move, check);
      o := WaitAndCheck(move, check);
      if o.Done? {
        o, again := Raised(LockHeld), true;
      }
    }

    /** `_replace`: a rename, tried again only while a held handle blocks it. A failed attempt moves nothing, and
        `check` runs again after every wait. */
    method Replace(move: Move, check: Recheck) returns (o: Outcome)
      requires Valid() && MayMove(move) && (move.SourceToPartial? ==> check.SourceStillMatches?)
      modifies this
      ensures Valid()
      ensures if o.Done? then MoveMade(move) else Untouched()
      ensures edits == old(edits) && old(Movable(st, move)) && check.NoRecheck? ==>
        o in {Done, Crashed, Raised(LockHeld)}
      ensures edits == old(edits) && old(Movable(st, move)) && old(st.source) == Some(expected)
        ==> check.OperatorStillReady? || o in {Done, Crashed, Raised(LockHeld)}
      ensures OnTrack(move, check) ==> o in {Done, Crashed, Raised(LockHeld)}
      ensures old(!MoveSourceExists(st, move)) && SourceIsAside(move) ==> o in {Raised(SourceMissing), Crashed}
      ensures o.Refused? ==> check.OperatorStillReady?
      ensures !o.NothingToDo?
      // A held lock is an error only after the seventh attempt, unless what is moved went away.
      ensures 1 <= attempts <= 7
      ensures (edits == old(edits) || SourceIsAside(move)) && old(MoveSourceExists(st, move)) && o == Raised(LockHeld) ==>
        attempts == 7
    {
      hide Valid, MovedBy, Moved, SkippedMoved, MoveSourceExists, MoveTargetFree, Movable, StillReady, SourceIsAside;
      o := Raised(LockHeld);
      attempts := 0;
      for attempt := 1 to REPLACE_ATTEMPTS + 1
        invariant Valid() && Untouched() && o == Raised(LockHeld) && attempts == attempt - 1 && MayMove(move)
        invariant attempt > 1 && SourceIsAside(move) ==> old(MoveSourceExists(st, move))
      {
        ghost var edited := st;
        SameReadiness(old(st), st, expected, move, check);
        var again;
        o, again := Attempt(move, check, attempt == REPLACE_ATTEMPTS);
        if o.Done? {
          MovedByFromEdited(old(st), edited, move, st);
        }
        if !again {
          return;
        }
      }
    }

    // ---------------------------------------------------------- trees removed or written file by file

    /** The program changed nothing but .partial; others may have edited the source. */
    twostate predicate PartialOnly()
      reads this
    {
      && st == old(st).(source := st.source, partial := st.partial)
      && skipped == old(skipped).(source := skipped.source, partial := skipped.partial)
      && edits >= old(edits) && (edits == old(edits) ==> st.source == old(st.source))
      && releasedFrom == old(releasedFrom) && SkippedKept()
    }

    /** One deletion of `shutil.rmtree`; the skipped files go in any order among the others. */
    method DiscardOne() returns (o: Outcome)
      requires Valid() && transfer == CopyVerify && st.partial.Holding? && st.partial.tree != map[]
      modifies this
      ensures Valid() && PartialOnly() && o in {Done, Crashed}
      ensures st.partial.Holding? && |st.partial.tree| < |old(st.partial).tree|
      ensures DirShrank(old(st.partial), st.partial)
      ensures lost == (old(lost) || (old(OnlyInPartial()) && !DirContains(st.partial, expected)))
      ensures Contains(old(skipped.partial), skipped.partial)
    {
      hide Valid, HeldElsewhere;
      var name :| name in st.partial.tree;
      var rest := st.partial.tree - {name};
      assert |rest| < |st.partial.tree| by {
        assert rest.Keys == st.partial.tree.Keys - {name};
      }
      CommitPartial(Holding(rest));
      var left: Tree := *;
      if Contains(skipped.partial, left) {
        skipped := skipped.(partial := left);
      }
      o := Interfere(true);
    }

    /** `shutil.rmtree` of the partial case directory, one file at a time. */
    method DiscardPartial() returns (o: Outcome)
      requires Valid()
      requires transfer == Rename ==> !st.partial.Holding?
      modifies this
      ensures Valid() && PartialOnly() && o in {Done, Crashed}
      ensures o.Done? ==> st.partial == Missing && skipped.partial == map[]
      ensures Contains(old(skipped.partial), skipped.partial)
      ensures transfer == Rename ==> !st.partial.Holding? && lost == old(lost) && confirmed == old(confirmed)
      // The payload is lost here exactly when it is nowhere else.
      ensures edits == old(edits) && o.Done? ==> lost == (old(lost) || old(OnlyInPartial()))
      ensures edits == old(edits) ==> (lost ==> old(lost) || old(OnlyInPartial()))
      ensures old(lost) ==> lost
    {
      hide Valid, HeldElsewhere, DirContains, DirShrank;
      o := Interfere(true);
      if o.IsFailure() {
        return;
      }
      NothingRemoved(st.partial);
      while st.partial.Holding? && st.partial.tree != map[]
        invariant Valid() && PartialOnly() && o == Done
        invariant transfer == Rename ==> !st.partial.Holding? && lost == old(lost) && confirmed == old(confirmed)
        invariant old(lost) ==> lost
        invariant Contains(old(skipped.partial), skipped.partial)
        invariant DirShrank(old(st.partial), st.partial)
        invariant edits == old(edits) ==>
          lost == (old(lost) || (old(OnlyInPartial()) && !DirContains(st.partial, expected)))
        decreases if st.partial.Holding? then |st.partial.tree| else 0
      {
        ghost var before := st;
        ShrinkingLoses(old(st.partial), before.partial, expected);
        ElsewhereIsOutsidePartial(old(st), before.(source := old(st).source), expected);
        o := DiscardOne();
        ShrinkMore(old(st.partial), before.partial, st.partial);
        ShrinkingLoses(before.partial, st.partial, expected);
        if o.IsFailure() {
          return;
        }
      }
      ShrinkingLoses(old(st.partial), st.partial, expected);
      ElsewhereIsOutsidePartial(old(st), st.(source := old(st).source), expected);
      skipped := skipped.(partial := map[]);
      CommitPartial(Missing);
    }

    /** One file of a copy, first torn and then whole; a torn file is not yet the payload's own. */
    method CopyFile(copy: Tree, name: string) returns (o: Outcome, copied: Tree)
      requires Valid() && transfer == CopyVerify && st.partial == Holding(copy) && name !in copy
      requires st.source.Some? && name in st.source.value
      modifies this
      ensures Valid() && PartialOnly() && skipped == old(skipped).(source := skipped.source)
      ensures lost == old(lost)
      ensures o.Done? ==> st.partial == Holding(copied) && copied.Keys == copy.Keys + {name}
      ensures o.Done? && edits == old(edits) ==> copied == copy[name := st.source.value[name]]
      ensures edits == old(edits) ==> o in {Done, Crashed}
      ensures o in {Done, Crashed, Raised(SourceMissing)}
    {
      hide Valid, HeldElsewhere;
      copied := copy;
      var torn: string := *;
      if name in expected && torn == expected[name] {
        torn := torn + "...";
      }
      CommitPartial(Holding(copy[name := torn]));
      o := Interfere(true);
      if o.IsFailure() {
        return;
      }
      if st.source.None? || name !in st.source.value {
        o := Raised(SourceMissing);
        return;
      }
      copied := copy[name := st.source.value[name]];
      CommitPartial(Holding(copied));
      o := Interfere(true);
    }

    /** The next file, if it is still there. */
    method CopyListed(copy: Tree, todo: set<string>, name: string) returns (o: Outcome, copied: Tree)
      requires Valid() && transfer == CopyVerify && st.partial == Holding(copy) && copy.Keys !! todo && name in todo
      modifies this
      ensures Valid() && PartialOnly() && skipped == old(skipped).(source := skipped.source) && lost == old(lost)
      ensures o.Done? ==> st.partial == Holding(copied) && copied.Keys !! todo - {name}
      ensures edits == old(edits) && st.source.Some? && PartCopied(st.source.value, copy, todo) ==>
        o in {Done, Crashed} && (o.Done? ==> PartCopied(st.source.value, copied, todo - {name}))
      ensures o in {Done, Crashed, Raised(SourceMissing)}
    {
      hide Valid, HeldElsewhere;
      copied := copy;
      if st.source.None? || name !in st.source.value {
        return Raised(SourceMissing), copied;
      }
      o, copied := CopyFile(copy, name);
    }

    /** One skipped file of a copy, likewise. */
    method CopySkipped(name: string) returns (o: Outcome)
      requires Valid() && name in skipped.source
      modifies this`st, this`edits, this`comings, this`skipped, this`sideEdits
      ensures Valid() && PartialOnly() && st == old(st).(source := st.source)
      ensures o.Done? && sideEdits == old(sideEdits) ==>
        skipped.partial == old(skipped.partial)[name := skipped.source[name]]
      ensures o in {Done, Crashed} || (sideEdits > old(sideEdits) && o == Raised(SourceMissing))
    {
      hide Valid, HeldElsewhere;
      var torn: string := *;
      skipped := skipped.(partial := skipped.partial[name := torn]);
      o := Interfere(true);
      if o.IsFailure() {
        return;
      }
      if name !in skipped.source {
        o := Raised(SourceMissing);
        return;
      }
      skipped := skipped.(partial := skipped.partial[name := skipped.source[name]]);
      o := Interfere(true);
    }

    /** The next skipped file, if it is still there. */
    method CopyAside(name: string, ghost later: set<string>) returns (o: Outcome)
      requires Valid() && name in later
      modifies this`st, this`edits, this`comings, this`skipped, this`sideEdits
      ensures Valid() && PartialOnly() && st == old(st).(source := st.source)
      ensures sideEdits == old(sideEdits) && PartCopied(skipped.source, old(skipped.partial), later) ==>
        o in {Done, Crashed} && (o.Done? ==> PartCopied(skipped.source, skipped.partial, later - {name}))
      ensures o in {Done, Crashed, Raised(SourceMissing)}
    {
      hide Valid, PartCopied;
      if PartCopied(skipped.source, skipped.partial, later) {
        OneMoreCopied(skipped.source, skipped.partial, later, name);
      }
      if name !in skipped.source {
        return Raised(SourceMissing);
      }
      o := CopySkipped(name);
    }

    /** The next file or skipped file, in any order. */
    method CopyNext(copy: Tree, todo: set<string>, later: set<string>)
      returns (o: Outcome, copied: Tree, todo': set<string>, later': set<string>)
      requires Valid() && transfer == CopyVerify && st.partial == Holding(copy) && copy.Keys !! todo
      requires todo != {} || later != {}
      modifies this
      ensures Valid() && PartialOnly() && lost == old(lost)
      ensures o.Done? ==>
        st.partial == Holding(copied) && copied.Keys !! todo' && |todo'| + |later'| < |todo| + |later|
      ensures edits == old(edits) && st.source.Some? && PartCopied(st.source.value, copy, todo) ==>
        (o.Done? ==> PartCopied(st.source.value, copied, todo'))
        && (o in {Done, Crashed} || (todo' == todo && o == Raised(SourceMissing)))
      ensures sideEdits == old(sideEdits) && PartCopied(skipped.source, old(skipped.partial), later) ==>
        (o.Done? ==> PartCopied(skipped.source, skipped.partial, later'))
        && (todo' == todo ==> o in {Done, Crashed})
      ensures o in {Done, Crashed, Raised(SourceMissing)}
    {
      hide Valid, HeldElsewhere, PartCopied;
      copied, todo', later' := copy, todo, later;
      var listed: bool := *;
      if todo != {} && (listed || later == {}) {
        var name :| name in todo;
        o, copied := CopyListed(copy, todo, name);
        todo' := todo - {name};
      } else {
        var name :| name in later;
        o := CopyAside(name, later);
        later' := later - {name};
      }
    }

    /** The new directory, empty. */
    method StartCopy() returns (o: Outcome)
      requires Valid() && transfer == CopyVerify && st.partial.Scaffold?
      modifies this
      ensures Valid() && PartialOnly() && lost == old(lost)
      ensures o.Done? ==> st.source.Some? && st.partial == Holding(map[]) && skipped.partial == map[]
      ensures o in {Done, Crashed} || (o == Raised(SourceMissing) && st.source.None?)
    {
      hide Valid;
      o := Interfere(true);
      if o.IsFailure() {
        return;
      }
      if st.source.None? {
        return Raised(SourceMissing);
      }
      skipped := skipped.(partial := map[]);
      CommitPartial(Holding(map[]));
    }

    /** `shutil.copytree` of the source, file by file, the skipped ones in any order among the others. Others may edit
        meanwhile. */
    method CopySource() returns (o: Outcome)
      requires Valid() && transfer == CopyVerify && st.partial.Scaffold?
      modifies this
      ensures Valid() && PartialOnly() && lost == old(lost)
      ensures o.Done? && edits == old(edits) ==>
        st.source.Some? && st.partial == Holding(st.source.value)
      ensures o.Done? && sideEdits == old(sideEdits) ==> skipped.partial == skipped.source
      ensures edits == old(edits) && old(st.source).Some? ==>
        o in {Done, Crashed} || (sideEdits > old(sideEdits) && o == Raised(SourceMissing))
      ensures o in {Done, Crashed, Raised(SourceMissing)}
    {
      hide Valid, HeldElsewhere, PartCopied;
      o := StartCopy();
      if o.IsFailure() {
        return;
      }
      var todo, later := st.source.value.Keys, skipped.source.Keys;
      var copy: Tree := map[];
      NothingCopied(st.source.value);
      NothingCopied(skipped.source);
      while todo != {} || later != {}
        invariant Valid() && o == Done && PartialOnly() && lost == old(lost)
        invariant st.partial == Holding(copy) && copy.Keys !! todo
        invariant edits == old(edits) ==> st.source.Some? && PartCopied(st.source.value, copy, todo)
        invariant sideEdits == old(sideEdits) ==> PartCopied(skipped.source, skipped.partial, later)
        decreases |todo| + |later|
      {
        o, copy, todo, later := CopyNext(copy, todo, later);
        if o.IsFailure() {
          return;
        }
      }
      if edits == old(edits) {
        AllCopied(st.source.value, copy);
      }
      if sideEdits == old(sideEdits) {
        AllCopied(skipped.source, skipped.partial);
      }
    }

    /** One deletion of the release. */
    method ReleaseFile()
      requires Valid() && transfer == CopyVerify && st.pending == Holding(expected)
      requires st.source.Some? && st.source.value != map[] && (releasedFrom.None? ==> st.source == Some(expected))
      modifies this`st, this`altered, this`lost, this`releasedFrom
      ensures Valid() && st == old(st).(source := st.source) && lost == old(lost) && releasedFrom.Some?
      ensures st.source.Some? && |st.source.value| < old(|st.source.value|)
    {
      hide Valid;
      var name :| name in st.source.value;
      var rest := st.source.value - {name};
      assert rest.Keys == st.source.value.Keys - {name};
      CommitSource(Some(rest));
    }

    /** One deletion of a skipped file. */
    method ReleaseSkipped(ghost before: bool, ghost found: Skipped)
      requires skipped.source != map[]
      requires skipped == found.(source := skipped.source) && Contains(found.source, skipped.source)
      requires uncopied == (before || !GoneWereCopied(found.pending, found.source, skipped.source))
      modifies this`skipped, this`uncopied
      ensures skipped == found.(source := skipped.source) && Contains(found.source, skipped.source)
      ensures uncopied == (before || !GoneWereCopied(found.pending, found.source, skipped.source))
      ensures |skipped.source| < old(|skipped.source|)
    {
      hide GoneWereCopied, Contains;
      var name :| name in skipped.source;
      OneMoreGone(found.pending, found.source, skipped.source, name);
      uncopied := uncopied || !(name in skipped.pending && skipped.pending[name] == skipped.source[name]);
      skipped := skipped.(source := skipped.source - {name});
    }

    /** The next deletion, of either kind. */
    method ReleaseNext(ghost before: bool, ghost found: Skipped) returns (o: Outcome)
      requires Valid() && transfer == CopyVerify && st.pending == Holding(expected) && st.source.Some?
      requires st.source.value != map[] || skipped.source != map[]
      requires releasedFrom.None? ==> st.source == Some(expected)
      requires skipped == found.(source := skipped.source) && Contains(found.source, skipped.source)
      requires uncopied == (before || !GoneWereCopied(found.pending, found.source, skipped.source))
      modifies this
      ensures Valid() && o in {Done, Crashed} && st == old(st).(source := st.source) && st.source.Some?
      ensures releasedFrom.None? ==> st.source == Some(expected)
      ensures edits == old(edits) && sideEdits == old(sideEdits) && lost == old(lost)
      ensures skipped == found.(source := skipped.source) && Contains(found.source, skipped.source)
      ensures uncopied == (before || !GoneWereCopied(found.pending, found.source, skipped.source))
      ensures |st.source.value| + |skipped.source| < old(|st.source.value| + |skipped.source|)
    {
      hide Valid, Contains, GoneWereCopied;
      var listed: bool := *;
      if st.source.value != map[] && (listed || skipped.source == map[]) {
        ReleaseFile();
      } else {
        ReleaseSkipped(before, found);
      }
      o := Interfere(false);
    }

    /** `shutil.rmtree` of the source, files and skipped files in any order; the process may die between any two
        deletions. */
    method DeleteSource() returns (o: Outcome)
      requires Valid() && transfer == CopyVerify && st.pending == Holding(expected) && st.source == Some(expected)
      modifies this
      ensures Valid() && st == old(st).(source := st.source) && o in {Done, Crashed}
      ensures edits == old(edits) && sideEdits == old(sideEdits) && lost == old(lost)
      ensures o.Done? ==> st.source == None && releasedFrom.Some?
      ensures old(uncopied) ==> uncopied
      ensures uncopied ==> old(uncopied) || !Contains(old(skipped.pending), old(skipped.source))
      ensures o.Done? ==> uncopied == (old(uncopied) || !Contains(old(skipped.pending), old(skipped.source)))
    {
      hide Valid, Contains, GoneWereCopied;
      ghost var found := skipped;
      NoneOrAllGone(found.pending, found.source);
      o := Done;
      while st.source.value != map[] || skipped.source != map[]
        invariant Valid() && o == Done && st == old(st).(source := st.source) && st.source.Some?
        invariant releasedFrom.None? ==> st.source == Some(expected)
        invariant edits == old(edits) && sideEdits == old(sideEdits) && lost == old(lost)
        invariant skipped == found.(source := skipped.source) && Contains(found.source, skipped.source)
        invariant uncopied == (old(uncopied) || !GoneWereCopied(found.pending, found.source, skipped.source))
        decreases |st.source.value| + |skipped.source|
      {
        o := ReleaseNext(old(uncopied), found);
        if o.IsFailure() {
          if Contains(found.pending, found.source) {
            ContainedIsCopied(found.pending, found.source, skipped.source);
          }
          return;
        }
      }
      CommitSource(None);
    }

    /** `_release_copied_source`: revalidate, then delete; taken as one step with respect to others' edits. The check
        does not see skipped files, so those that the copy does not have are destroyed with the rest. */
    method ReleaseCopiedSource() returns (o: Outcome)
      requires Valid() && transfer == CopyVerify && st.pending == Holding(expected)
      modifies this
      ensures Valid() && st == old(st).(source := st.source)
      ensures edits >= old(edits) && lost == old(lost)
      ensures o.Done? ==> st.source == None && releasedFrom.Some?
      ensures edits == old(edits) && old(st.source) == Some(expected) ==> o in {Done, Crashed}
      ensures !o.NothingToDo? && !o.Refused?
      ensures sideEdits >= old(sideEdits) && (old(uncopied) ==> uncopied)
      ensures sideEdits == old(sideEdits) ==>
        (uncopied ==> old(uncopied) || !Contains(old(skipped.pending), old(skipped.source)))
      ensures sideEdits == old(sideEdits) && o.Done? ==>
        uncopied == (old(uncopied) || !Contains(old(skipped.pending), old(skipped.source)))
    {
      hide Valid, Contains;
      o := RevalidateSource();
      if o.IsFailure() {
        return;
      }
      o := DeleteSource();
    }

    // ---------------------------------------------------------- publication

    /** `_publish`: one move, then one write, and a crash may fall between them. */
    method Publish() returns (o: Outcome)
      requires Valid()
      requires transfer == CopyVerify ==> st.partial == Holding(expected) && confirmed
      modifies this
      ensures Valid()
      ensures edits >= old(edits) && lost == old(lost) && releasedFrom == old(releasedFrom)
      ensures edits == old(edits) && old(InterruptedHere() && st.partial == Holding(expected)) ==>
        && InterruptedHere()
        && (o.Done? ==> PublishedHere())
        && o in {Done, Crashed, Raised(LockHeld)}
      ensures o.Done? ==> st.pending == old(st.partial)
      ensures edits == old(edits) ==> st.source == old(st.source)
      ensures SkippedKept()
      ensures o.Done? && sideEdits == old(sideEdits) ==> skipped.pending == old(skipped.partial)
      ensures !o.NothingToDo? && !o.Refused?
    {
      o := Replace(PartialToPending, NoRecheck);
      if o.IsFailure() {
        return;
      }
      :- Interfere(true);
      WriteRecord(PendingReview);
      return Done;
    }

    // ---------------------------------------------------------- execute_transfer

    /** Nothing occupies the case that a transfer may not clear. */
    predicate Startable()
      reads `st
    {
      && (st.record.NoRecord? || (st.record.Filed? && !Terminal(st.record.manifest.state)))
      && st.pending.Missing?
      && (transfer == Rename ==> st.partial.Missing?)
    }

    /** Refuse what may not be redone, clear the debris of an earlier copy. */
    method ClearTheWay() returns (o: Outcome)
      requires Valid()
      modifies this
      ensures Valid() && PartialOnly()
      ensures !o.NothingToDo? && !o.Refused?
      ensures o.Done? ==> old(Startable()) && st.partial.Missing?
      ensures o.Raised? ==> !old(Startable()) && o in {Raised(ManifestInvalid), Raised(CaseCollision), Raised(PartialRecoveryRequired)}
      ensures o == Raised(ManifestInvalid) ==> old(st.record in {Unreadable, Misfiled})
      ensures o == Raised(CaseCollision) ==> old(!st.pending.Missing? || Decided(st))
      ensures o == Raised(PartialRecoveryRequired) ==> transfer == Rename && old(!st.partial.Missing?)
      ensures !old(Startable()) ==> st.partial == old(st.partial) && lost == old(lost)
      ensures transfer == Rename ==> st.partial == old(st.partial)
      ensures edits == old(edits) ==> (lost ==> old(lost) || old(Startable() && OnlyInPartial()))
      ensures edits == old(edits) && o.Done? ==> lost == (old(lost) || old(OnlyInPartial()))
    {
      o := Interfere(true);
      if o.IsFailure() {
        return;
      }
      if st.record in {Unreadable, Misfiled} {
        return Raised(ManifestInvalid);
      }
      if !st.pending.Missing? || (st.record.Filed? && Terminal(st.record.manifest.state)) {
        return Raised(CaseCollision);
      }
      if !st.partial.Missing? {
        if transfer == Rename {
          return Raised(PartialRecoveryRequired);
        }
        o := DiscardPartial();
        return;
      }
      return Done;
    }

    /** The copy into .partial, verified and recorded. */
    method CopyAndVerify(enoughSpace: bool) returns (o: Outcome)
      requires Valid() && transfer == CopyVerify
      requires st.partial.Scaffold? && st.pending.Missing? && Describes(st.record, transfer, expected)
      requires st.record.manifest.state == Planned
      modifies this
      ensures Valid() && SkippedKept()
      ensures o.Done? && sideEdits == old(sideEdits) ==> skipped.partial == skipped.source
      ensures edits >= old(edits) && lost == old(lost) && releasedFrom == old(releasedFrom)
      ensures !o.NothingToDo? && !o.Refused?
      ensures st == old(st).(source := st.source, partial := st.partial, record := st.record)
      ensures Describes(st.record, transfer, expected)
      ensures !Terminal(st.record.manifest.state) && st.record.manifest.state != PendingReview
      ensures edits == old(edits) ==> st.source == old(st.source)
      ensures o.Done? ==> st.partial == Holding(expected) && st.record.manifest.state == CopiedVerified
      ensures !enoughSpace ==> o == Raised(InsufficientSpace)
      ensures edits == old(edits) && old(st.source) == Some(expected) ==>
        || o in {Done, Crashed} || (!enoughSpace && o == Raised(InsufficientSpace))
        || (sideEdits > old(sideEdits) && o == Raised(SourceMissing))
    {
      if !enoughSpace {
        return Raised(InsufficientSpace);
      }
      :- CopySource();
      if st.partial != Holding(expected) {
        return Raised(StagedPayloadMismatch);
      }
      :- Interfere(true);
      WriteRecord(CopiedVerified);
      return Done;
    }

    /** Up to the planned record and the empty scaffolding. */
    method Begin() returns (o: Outcome)
      requires Valid()
      modifies this
      ensures Valid() && SkippedKept()
      ensures edits >= old(edits) && (edits == old(edits) ==> st.source == old(st.source))
      ensures !o.NothingToDo? && !o.Refused?
      ensures edits == old(edits) && old(Fresh() || InterruptedHere()) ==> Fresh() || InterruptedHere()
      ensures releasedFrom == old(releasedFrom)
      ensures o.Done? ==> st.partial.Scaffold? && st.pending.Missing? && Describes(st.record, transfer, expected)
      ensures o.Done? ==> st.record.manifest.state == Planned
      ensures edits == old(edits) && old(Fresh() && Startable()) ==> o in {Done, Crashed}
      ensures edits == old(edits) ==> (lost ==> old(lost) || old(Startable() && OnlyInPartial()))
      ensures edits == old(edits) && o.Done? ==> lost == (old(lost) || old(OnlyInPartial()))
      ensures o.Done? ==> old(Startable())
      ensures o.Raised? ==> !old(Startable())
      ensures old(!Startable()) ==> !o.Done? && st == old(st).(source := st.source)
    {
      hide Valid;
      o := ClearTheWay();
      if o.IsFailure() {
        return;
      }
      ghost var lostClearing := lost;
      :- Interfere(true);
      WriteRecord(Planned);
      :- Interfere(true);
      MakePartial();
      assert lost == lostClearing;
      return Done;
    }

    /** Bring the payload into .partial: copied and verified, or moved. The source is revalidated on both. */
    method BringIn(enoughSpace: bool) returns (o: Outcome)
      requires Valid()
      requires st.partial.Scaffold? && st.pending.Missing? && Describes(st.record, transfer, expected)
      requires st.record.manifest.state == Planned
      modifies this
      ensures Valid() && uncopied == old(uncopied) && sideEdits >= old(sideEdits)
      ensures transfer == CopyVerify && o.Done? && sideEdits == old(sideEdits) ==> skipped.partial == skipped.source
      ensures edits >= old(edits) && lost == old(lost) && releasedFrom == old(releasedFrom)
      ensures !o.NothingToDo? && !o.Refused?
      ensures o.Done? && transfer == CopyVerify ==> st.partial == Holding(expected) && confirmed && enoughSpace
      ensures edits == old(edits) && o.Done? ==> old(st.source) == Some(expected) && st.partial == Holding(expected)
      ensures edits == old(edits) && old(st.source) == Some(expected) ==>
        && InterruptedHere()
        && (o in {Done, Crashed, Raised(LockHeld)} || (!enoughSpace && o == Raised(InsufficientSpace))
            || (sideEdits > old(sideEdits) && o == Raised(SourceMissing)))
        && (transfer == CopyVerify ==> st.source == Some(expected))
    {
      if transfer == CopyVerify {
        :- CopyAndVerify(enoughSpace);
      }
      :- RevalidateSource();
      if transfer == Rename {
        :- Replace(SourceToPartial, SourceStillMatches);
      }
      return Done;
    }

    /** `execute_transfer`. */
    method ExecuteTransfer(enoughSpace: bool, deleteCopiedSource: bool) returns (o: Outcome)
      requires Valid()
      modifies this
      ensures Valid()
      ensures edits >= old(edits)
      ensures !o.NothingToDo? && !o.Refused?
      // Every crash point is one recovery can finish, and a completed call is published.
      ensures edits == old(edits) && old(Fresh() || InterruptedHere()) ==> Fresh() || InterruptedHere()
      ensures edits == old(edits) && o.Done? ==> PublishedHere()
      ensures transfer == CopyVerify && !enoughSpace ==> !o.Done?
      // The source of a copy is released exactly when that was asked for.
      ensures o.Done? && transfer == CopyVerify && deleteCopiedSource ==> st.source == None && releasedFrom.Some?
      ensures transfer == Rename || !deleteCopiedSource ==> releasedFrom == old(releasedFrom)
      ensures edits == old(edits) && old(Fresh() && Startable()) && enoughSpace ==>
        o in {Done, Crashed, Raised(LockHeld)} || (sideEdits > old(sideEdits) && o == Raised(SourceMissing))
      // A fresh copy has the skipped files too, so none is destroyed that nobody changed meanwhile.
      ensures sideEdits >= old(sideEdits) && (sideEdits == old(sideEdits) ==> uncopied == old(uncopied))
      ensures transfer == Rename || !deleteCopiedSource ==> uncopied == old(uncopied)
      // What may not be redone is refused and left alone, a decided case among it.
      ensures old(!Startable()) ==> (o.Raised? || o.Crashed?) && st == old(st).(source := st.source)
      ensures old(Decided(st)) ==> st == old(st).(source := st.source)
      // The rename path loses nothing (Valid). On the copy path .partial is cleared before the source is looked
      // at, so a call that gets past the refusals loses the payload exactly when only .partial had it.
      ensures edits == old(edits) ==> (lost ==> old(lost) || old(Startable() && OnlyInPartial()))
      ensures edits == old(edits) && !o.Crashed? && old(Startable()) ==> lost == (old(lost) || old(OnlyInPartial()))
    {
      o := Begin();
      if o.IsFailure() {
        return;
      }
      :- BringIn(enoughSpace);
      :- Publish();
      if transfer == CopyVerify && deleteCopiedSource {
        :- ReleaseCopiedSource();
      }
      return Done;
    }

    // ---------------------------------------------------------- recover_case

    /** Make the move into the empty scaffolding, and publish. */
    method RenameAndPublish() returns (o: Outcome)
      requires Valid() && transfer == Rename && st.partial.Scaffold? && confirmed
      modifies this
      ensures Valid()
      ensures edits >= old(edits) && lost == old(lost) && sideEdits >= old(sideEdits) && uncopied == old(uncopied)
      ensures !o.NothingToDo? && !o.Refused?
      ensures edits == old(edits) && old(InterruptedHere() && st.source == Some(expected)) ==>
        InterruptedHere() && (o.Done? ==> PublishedHere()) && o in {Done, Crashed, Raised(LockHeld)}
    {
      hide Valid;
      o := Replace(SourceToPartial, SourceStillMatches);
      if o.IsFailure() {
        return;
      }
      o := Publish();
    }

    /** Clear the scaffolding and make the move that had not happened (rename). */
    method RestartRename() returns (o: Outcome)
      requires Valid() && transfer == Rename
      requires Describes(st.record, transfer, expected) && st.pending.Missing?
      requires !Terminal(st.record.manifest.state) && st.record.manifest.state != PendingReview
      modifies this
      ensures Valid()
      ensures edits >= old(edits) && lost == old(lost) && sideEdits >= old(sideEdits) && uncopied == old(uncopied)
      ensures !o.NothingToDo?
      ensures o.Refused? ==> old(st.partial.Holding?) && st == old(st).(source := st.source)
      ensures edits == old(edits) && old(st.source) != Some(expected) ==> (o.Raised? || o.Crashed?) && st == old(st)
      ensures edits == old(edits) && old(InterruptedHere() && st.source == Some(expected)) ==>
        InterruptedHere() && (o.Done? ==> PublishedHere()) && o in {Done, Crashed, Raised(LockHeld)}
    {
      hide Valid;
      o := RevalidateSource();
      if o.IsFailure() {
        return;
      }
      if st.partial.Holding? {
        return Refused;
      }
      if !st.partial.Missing? {
        :- DiscardPartial();
      }
      :- Interfere(true);
      MakePartial();
      o := RenameAndPublish();
    }

    /** Discard what is in .partial and copy the source anew. */
    method Recopy() returns (o: Outcome)
      requires Valid() && transfer == CopyVerify && st.source == Some(expected)
      modifies this
      ensures Valid() && PartialOnly()
      ensures edits == old(edits) ==> lost == old(lost)
      ensures o.Done? ==> st.partial == Holding(expected)
      ensures o.Done? && sideEdits == old(sideEdits) ==> skipped.partial == skipped.source
      ensures edits == old(edits) ==> o in {Done, Crashed} || (sideEdits > old(sideEdits) && o == Raised(SourceMissing))
      ensures !o.NothingToDo? && !o.Refused?
    {
      hide Valid;
      o := Done;
      if !st.partial.Missing? {
        o := DiscardPartial();
        if o.IsFailure() {
          return;
        }
      }
      :- Interfere(true);
      MakePartial();
      :- CopySource();
      if st.partial != Holding(expected) {
        return Raised(StagedPayloadMismatch);
      }
      return Done;
    }

    /** Publish a verified copy, and release its source if that was asked for. */
    method PublishCopy(deleteCopiedSource: bool) returns (o: Outcome)
      requires Valid() && transfer == CopyVerify && st.partial == Holding(expected) && confirmed
      modifies this
      ensures Valid()
      ensures edits >= old(edits) && lost == old(lost)
      ensures !o.NothingToDo? && !o.Refused?
      ensures o.Done? && deleteCopiedSource ==> st.source == None && releasedFrom.Some?
      ensures !deleteCopiedSource ==> releasedFrom == old(releasedFrom) && uncopied == old(uncopied)
      ensures edits == old(edits) && old(InterruptedHere()) ==>
        && InterruptedHere() && (o.Done? ==> PublishedHere())
        && o in {Done, Crashed, Raised(LockHeld)}
      ensures sideEdits >= old(sideEdits) && (old(uncopied) ==> uncopied)
      ensures sideEdits == old(sideEdits) ==>
        (uncopied ==> old(uncopied) || (deleteCopiedSource && !Contains(old(skipped.partial), old(skipped.source))))
      ensures sideEdits == old(sideEdits) && o.Done? && deleteCopiedSource ==>
        uncopied == (old(uncopied) || !Contains(old(skipped.partial), old(skipped.source)))
    {
      hide Valid, Contains;
      o := Publish();
      if o.Done? && deleteCopiedSource {
        o := ReleaseCopiedSource();
      }
    }

    /** Redo the copy from the revalidated source. */
    method RestartCopy(deleteCopiedSource: bool) returns (o: Outcome)
      requires Valid() && transfer == CopyVerify
      requires Describes(st.record, transfer, expected) && st.pending.Missing?
      requires !Terminal(st.record.manifest.state) && st.record.manifest.state != PendingReview
      modifies this
      ensures Valid()
      ensures edits >= old(edits)
      ensures sideEdits >= old(sideEdits) && (sideEdits == old(sideEdits) || !deleteCopiedSource ==> uncopied == old(uncopied))
      ensures !o.NothingToDo? && !o.Refused?
      ensures edits == old(edits) ==> lost == old(lost)
      ensures edits == old(edits) && old(st.source) != Some(expected) ==> (o.Raised? || o.Crashed?) && st == old(st)
      ensures o.Done? && deleteCopiedSource ==> st.source == None && releasedFrom.Some?
      ensures !deleteCopiedSource ==> releasedFrom == old(releasedFrom)
      ensures edits == old(edits) && old(InterruptedHere()) ==>
        && InterruptedHere() && (o.Done? ==> PublishedHere())
        && (o in {Done, Crashed, Raised(LockHeld)} || (sideEdits > old(sideEdits) && o == Raised(SourceMissing)))
    {
      hide Valid;
      o := RevalidateSource();
      if o.IsFailure() {
        return;
      }
      :- Recopy();
      :- RevalidateSource();
      o := PublishCopy(deleteCopiedSource);
    }

    /** The copy verifies, although it lacks skipped files of the source. */
    ghost predicate CopyLacksSkipped()
      reads `st, `skipped
    {
      st.partial == Holding(expected) && !Contains(skipped.partial, skipped.source)
    }

    /** `recover_case`: act on the classification of what is on disk, and only on the four automatic ones. */
    method RecoverCase(deleteCopiedSource: bool) returns (o: Outcome)
      requires Valid()
      modifies this
      ensures Valid()
      ensures edits >= old(edits)
      ensures transfer == Rename || !deleteCopiedSource ==> releasedFrom == old(releasedFrom)
      // Recovery never loses the payload unless others edit the source meanwhile, and then only by redoing a copy
      // whose .partial was not the verified payload.
      ensures edits == old(edits) || old(st.partial) == Holding(expected) ==> lost == old(lost)
      // From any crash point one uninterrupted call publishes the payload, and every crash point of the call is
      // again one it can finish.
      ensures edits == old(edits) && old(InterruptedHere()) ==>
        && InterruptedHere()
        && (o in {Done, NothingToDo} ==> PublishedHere())
        && (o in {Done, NothingToDo, Crashed, Raised(LockHeld)}
            || (sideEdits > old(sideEdits) && o == Raised(SourceMissing)))
      // Skipped files that nobody changed meanwhile are destroyed exactly by resuming from a copy that lacks some.
      ensures sideEdits == old(sideEdits) ==>
        (uncopied ==> old(uncopied) || (deleteCopiedSource && old(CopyLacksSkipped())))
      ensures edits == old(edits) && sideEdits == old(sideEdits) && o.Done? ==>
        uncopied == (old(uncopied) || (deleteCopiedSource && old(Assess(st) == ResumePublication && CopyLacksSkipped())))
      ensures sideEdits >= old(sideEdits)
      ensures transfer == Rename || !deleteCopiedSource ==> uncopied == old(uncopied)
      ensures o.NothingToDo? ==>
        old(st.pending == Holding(expected) && st.record.Filed? && st.record.manifest.state == PendingReview)
      // A further call changes nothing.
      ensures old(PublishedHere()) ==> o in {NothingToDo, Crashed} && st == old(st).(source := st.source)
      // What is the operator's is refused and left alone: decided cases, records that cannot be read, contradictions.
      ensures old(HandsOff(st)) ==> o in {Refused, Crashed} && st == old(st).(source := st.source)
      ensures edits == old(edits) && old(HandsOff(st) || Unexplained(st)) ==> o in {Refused, Crashed} && st == old(st)
      ensures old(Decided(st)) ==> st == old(st).(source := st.source)
      // Nothing else is refused while nobody else edits, and a refusal touches nothing.
      ensures edits == old(edits) && o.Refused? ==> old(HandsOff(st) || Unexplained(st))
      ensures o.Refused? ==> st == old(st).(source := st.source)
      // A published case gets its record, and nothing else changes.
      ensures old(!HandsOff(st) && !st.pending.Missing?) ==>
        && st == old(st).(source := st.source, record := st.record)
        && o in {if old(st.record.manifest.state) == PendingReview then NothingToDo else Done, Crashed}
        && (if o.Done? then st.record.Filed? && st.record.manifest.state == PendingReview
            else st.record == old(st.record))
      // A source that is another payload now is not touched.
      ensures edits == old(edits) && old(SourceMovedOn()) ==> (o.Raised? || o.Crashed?) && st == old(st)
    {
      AutomaticExactly(st);
      o := Interfere(true);
      if o.IsFailure() {
        return;
      }
      var found := Assess(st);
      match found
      case Complete =>
        if st.record.manifest.state == PendingReview {
          return NothingToDo;
        }
        WriteRecord(PendingReview);
        return Done;
      case ResumePublication =>
        :- RevalidateSource();
        if st.partial != Holding(expected) {
          return Refused;
        }
        o := PublishCopy(deleteCopiedSource);
      case PublishPartial =>
        :- Interfere(true);
        if st.partial != Holding(expected) {
          return Refused;
        }
        :- Publish();
        return Done;
      case RestartFromSource =>
        if transfer == Rename {
          o := RestartRename();
        } else {
          o := RestartCopy(deleteCopiedSource);
        }
      case _ =>
        return Refused;
    }

    // ---------------------------------------------------------- the operator

    /** `_finish`. */
    method Finish(state: CaseState) returns (o: Outcome)
      requires Valid()
      modifies this
      ensures Valid()
      ensures st == old(st).(source := st.source, record := st.record)
      ensures edits >= old(edits) && (edits == old(edits) ==> st.source == old(st.source))
      ensures lost == old(lost) && releasedFrom == old(releasedFrom)
      ensures uncopied == old(uncopied) && sideEdits >= old(sideEdits)
      ensures o in {Done, Crashed}
      ensures o.Done? ==> Describes(st.record, transfer, expected) && st.record.manifest.state == state
      ensures o.Crashed? ==> st.record == old(st.record)
    {
      o := Interfere(true);
      if o.IsFailure() {
        return;
      }
      WriteRecord(state);
      return Done;
    }

    /** The payload awaits this decision whole, and nothing is at the destination. */
    ghost predicate Promotable(seen: Manifest, dest: string)
      reads `st
    {
      && st.record == Filed(seen) && seen.state == PendingReview && st.pending == Holding(expected)
      && st.library.NotFiled? && dest !in st.taken
    }

    /** `promote_case`: `permitted` is the lexical check of the destination, `oneVolume` the volume check. */
    method PromoteCase(seen: Manifest, dest: string, permitted: bool, oneVolume: bool) returns (o: Outcome)
      requires Valid()
      modifies this
      ensures Valid()
      ensures edits >= old(edits) && lost == old(lost)
      ensures uncopied == old(uncopied) && sideEdits >= old(sideEdits)
      ensures o.Refused? ==> st == old(st).(source := st.source)
      // What is ready is promoted, and nothing else is touched.
      ensures old(Promotable(seen, dest)) && permitted && oneVolume ==> o in {Done, Crashed, Raised(LockHeld)}
      ensures !(old(Promotable(seen, dest)) && permitted && oneVolume) ==>
        o in {Refused, Crashed} && st == old(st).(source := st.source)
      ensures o.Done? ==>
        && old(OperatorReady(seen) && dest !in st.taken && st.pending == Holding(expected)) && permitted
        && st.library == FiledAt(dest, expected) && st.pending == Scaffold
        && st.record.Filed? && st.record.manifest.state == Promoted
    {
      o := Interfere(true);
      if o.IsFailure() {
        return;
      }
      if !OperatorReady(seen) || st.pending != Holding(expected) || !permitted
      || !MoveTargetFree(st, PayloadToLibrary(dest)) || !oneVolume {
        return Refused;
      }
      :- Replace(PayloadToLibrary(dest), OperatorStillReady(seen, true, PayloadToLibrary(dest)));
      o := Finish(Promoted);
    }

    ghost predicate Rejectable(seen: Manifest)
      reads `st
    {
      st.record == Filed(seen) && seen.state == PendingReview && st.rejected.Missing?
    }

    /** `reject_case`. */
    method RejectCase(seen: Manifest) returns (o: Outcome)
      requires Valid()
      modifies this
      ensures Valid()
      ensures edits >= old(edits) && lost == old(lost)
      ensures uncopied == old(uncopied) && sideEdits >= old(sideEdits)
      ensures o.Refused? ==> st == old(st).(source := st.source)
      // What is ready is rejected, also with a payload that no longer verifies, and nothing else is touched.
      ensures old(Rejectable(seen) && !st.pending.Missing?) ==> o in {Done, Crashed, Raised(LockHeld)}
      ensures old(Rejectable(seen) && st.pending.Missing?) ==>
        o in {Raised(SourceMissing), Crashed} && st == old(st).(source := st.source)
      ensures old(!Rejectable(seen)) ==> o in {Refused, Crashed} && st == old(st).(source := st.source)
      ensures o.Done? ==>
        && old(OperatorReady(seen) && st.rejected.Missing?)
        && st.rejected == old(st.pending) && st.pending == Missing
        && st.record.Filed? && st.record.manifest.state == Rejected
    {
      o := Interfere(true);
      if o.IsFailure() {
        return;
      }
      if !OperatorReady(seen) || !MoveTargetFree(st, PendingToRejected) {
        return Refused;
      }
      :- Replace(PendingToRejected, OperatorStillReady(seen, false, PendingToRejected));
      o := Finish(Rejected);
    }

    ghost predicate Returnable(seen: Manifest)
      reads `st
    {
      && st.record == Filed(seen) && seen.state == PendingReview && st.pending == Holding(expected)
      && transfer == Rename
    }

    /** `rollback_case`. A copied case was staged from another volume, where no atomic return exists. */
    method RollbackCase(seen: Manifest) returns (o: Outcome)
      requires Valid()
      modifies this
      ensures Valid()
      ensures edits >= old(edits) && lost == old(lost)
      ensures uncopied == old(uncopied) && sideEdits >= old(sideEdits)
      ensures o.Refused? ==> st == old(st).(source := st.source)
      // What is ready is rolled back unless others bring the source back, and nothing else is touched.
      ensures edits == old(edits) && old(Returnable(seen) && st.source.None?) ==> o in {Done, Crashed, Raised(LockHeld)}
      ensures edits == old(edits) && old(st.source.Some?) ==> o in {Refused, Crashed} && st == old(st)
      ensures old(!Returnable(seen)) ==> o in {Refused, Crashed} && st == old(st).(source := st.source)
      ensures o.Done? ==>
        && old(OperatorReady(seen) && st.pending == Holding(expected)) && transfer == Rename
        && (edits == old(edits) ==> old(st.source) == None && st.source == Some(expected))
        && st.pending == Scaffold
        && st.record.Filed? && st.record.manifest.state == RolledBack
    {
      o := Interfere(true);
      if o.IsFailure() {
        return;
      }
      if !OperatorReady(seen) || st.pending != Holding(expected)
      || !MoveTargetFree(st, PayloadToSource) || transfer == CopyVerify {
        return Refused;
      }
      :- Replace(PayloadToSource, OperatorStillReady(seen, true, PayloadToSource));
      o := Finish(RolledBack);
    }
  }

  // ------------------------------------------------------------ whole runs

  datatype Operation =
    | Execute(enoughSpace: bool, deleteCopiedSource: bool)
    | Recover(deleteCopiedSource: bool)
    | Promote(seen: Manifest, dest: string, permitted: bool, oneVolume: bool)
    | Reject(seen: Manifest)
    | Rollback(seen: Manifest)

  /** Some operation may release the source after a copy that lacks skipped files: a recovery, or a transfer while others
      add some. */
  predicate Releases(schedule: seq<Operation>, disturbed: bool) {
    exists i | 0 <= i < |schedule| :: MayRelease(schedule[i], disturbed)
  }

  predicate MayRelease(op: Operation, disturbed: bool) {
    (op.Recover? && op.deleteCopiedSource) || (op.Execute? && op.deleteCopiedSource && disturbed)
  }

  lemma ReleasesAgain(schedule: seq<Operation>, i: nat)
    requires i < |schedule|
    ensures forall d :: Releases(schedule[..i + 1], d) <==> Releases(schedule[..i], d) || MayRelease(schedule[i], d)
    ensures Releases(schedule[..i], false) ==> Releases(schedule[..i], true)
  {
    assert schedule[..i + 1] == schedule[..i] + [schedule[i]];
    forall d | Releases(schedule[..i], d) ensures Releases(schedule[..i + 1], d) {
      var k :| 0 <= k < i && MayRelease(schedule[..i][k], d);
      assert MayRelease(schedule[..i + 1][k], d);
    }
    forall d | MayRelease(schedule[i], d) ensures Releases(schedule[..i + 1], d) {
      assert MayRelease(schedule[..i + 1][i], d);
    }
    if k :| 0 <= k < i && MayRelease(schedule[..i][k], false) {
      assert MayRelease(schedule[..i][k], true);
    }
  }

  /** Once an operator has decided the case, only others change anything, and only the source. */
  ghost predicate DecisionsStand(trace: seq<Store>) {
    forall i, j | 0 <= i <= j < |trace| && Decided(trace[i]) :: trace[j] == trace[i].(source := trace[j].source)
  }

  /** Any sequence of operations, each of which may crash anywhere, with others editing the source throughout.
      On the rename path nothing is ever destroyed, and the payload is in exactly one place as long as others only
      edit a source that is there. On the copy path the source was deleted from only when it was exactly what had
      been copied, and the copy is still held. On both the payload is held complete when nobody else edits. */
  method RunAny(source: Tree, aside: Tree, transfer: TransferMethod, taken: set<string>, schedule: seq<Operation>)
    returns (c: CaseRun, ghost trace: seq<Store>)
    requires source != map[]
    ensures c.Valid() && c.expected == source && c.transfer == transfer
    // What an operator has decided, no later operation touches.
    ensures |trace| == |schedule| + 1 && trace[|schedule|] == c.st && DecisionsStand(trace)
    ensures transfer == Rename ==> !c.altered && !c.lost && (c.comings == 0 ==> Occupied(c.st) == 1)
    ensures transfer == Rename && c.edits == 0 ==> Copies(c.st, source) == 1
    ensures c.edits == 0 ==> !c.lost && Holds(c.st, source)
    ensures transfer == CopyVerify && c.releasedFrom.Some? ==>
      c.releasedFrom.value == source && c.HeldBeyondSource()
    // No skipped file of the source is destroyed without a copy, unless a recovery released the source, or a transfer
    // did that others disturbed.
    ensures transfer == Rename || !Releases(schedule, c.sideEdits > 0) ==> !c.uncopied
  {
    c := new CaseRun(source, aside, transfer, taken);
    trace := [c.st];
    for i := 0 to |schedule|
      invariant fresh(c) && c.Valid() && c.expected == source && c.transfer == transfer
      invariant |trace| == i + 1 && trace[i] == c.st && DecisionsStand(trace)
      invariant transfer == Rename || !Releases(schedule[..i], c.sideEdits > 0) ==> !c.uncopied
    {
      ReleasesAgain(schedule, i);
      match schedule[i] {
        case Execute(enoughSpace, deleteCopiedSource) => var _ := c.ExecuteTransfer(enoughSpace, deleteCopiedSource);
        case Recover(deleteCopiedSource) => var _ := c.RecoverCase(deleteCopiedSource);
        case Promote(seen, dest, permitted, oneVolume) => var _ := c.PromoteCase(seen, dest, permitted, oneVolume);
        case Reject(seen) => var _ := c.RejectCase(seen);
        case Rollback(seen) => var _ := c.RollbackCase(seen);
      }
      trace := trace + [c.st];
    }
    assert schedule[..|schedule|] == schedule;
  }

  /** A transfer and then any number of recoveries, each of which may crash anywhere: while nobody else touches the
      source, the case never leaves the states recovery handles, and the first call to finish has published it. */
  method StageWithRetries(source: Tree, aside: Tree, transfer: TransferMethod, deleteCopiedSource: bool, retries: nat)
    returns (c: CaseRun, o: Outcome)
    requires source != map[]
    ensures c.Valid() && c.expected == source && c.transfer == transfer
    ensures c.edits == 0 ==> c.Fresh() || c.InterruptedHere()
    ensures c.edits == 0 && o in {Done, NothingToDo} ==> c.PublishedHere()
    ensures c.edits == 0 ==> Holds(c.st, source) && !c.lost
    ensures c.edits == 0 && !(o in {Done, NothingToDo}) ==>
      o in {Crashed, Refused, Raised(LockHeld)} || (c.sideEdits > 0 && o == Raised(SourceMissing))
  {
    c := new CaseRun(source, aside, transfer, {});
    o := c.ExecuteTransfer(true, deleteCopiedSource);
    for i := 0 to retries
      invariant fresh(c) && c.Valid() && c.expected == source && c.transfer == transfer
      invariant c.edits == 0 ==> c.Fresh() || c.InterruptedHere()
      invariant c.edits == 0 && o in {Done, NothingToDo} ==> c.PublishedHere()
      invariant c.edits == 0 ==> !c.lost
      invariant c.edits == 0 && !(o in {Done, NothingToDo}) ==>
        o in {Crashed, Refused, Raised(LockHeld)} || (c.sideEdits > 0 && o == Raised(SourceMissing))
    {
      if o in {Done, NothingToDo} {
        return;
      }
      o := c.RecoverCase(deleteCopiedSource);
    }
  }
}
