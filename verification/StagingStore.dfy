/**
 What one review case can look like on disk, the atomic changes the staging code makes to it, and the
 classification recovery reads off it (scripts/cbz_classification_staging.py).

 A payload tree is a map from relative path to content, of the files that the inventory lists. Two trees have the
 same inventory digest exactly when they are equal, because SHA-256 is taken to be injective. The inventory skips what
 is under certain directory names (comic_automation/library/exclusions.py), but copying, moving and deleting take it
 along; those files are kept apart as `Skipped`, place by place.
 */
module StagingStore {
  import opened Outcomes

  type Tree = map<string, string>

  datatype TransferMethod = Rename | CopyVerify

  datatype CaseState = Planned | CopiedVerified | PendingReview | Promoted | Rejected | RolledBack

  /** `stamp` stands for every field that `touch` may change; the record digest is injective, so two records
      have the same digest exactly when they are equal. */
  datatype Manifest = Manifest(state: CaseState, transfer: TransferMethod, files: Tree, stamp: nat)

  /** What is filed as manifests/<case-id>.json. */
  datatype Record = NoRecord | Unreadable | Misfiled | Filed(manifest: Manifest)

  /** A case directory under .partial, pending or rejected: absent, present without a payload, or holding one. */
  datatype CaseDir = Missing | Scaffold | Holding(tree: Tree)

  /** Where, if anywhere, the case has been promoted to. */
  datatype Library = NotFiled | FiledAt(dest: string, tree: Tree)

  /** `taken` are the library destinations occupied by others. */
  datatype Store = Store(
    source: Option<Tree>,
    partial: CaseDir,
    pending: CaseDir,
    rejected: CaseDir,
    library: Library,
    taken: set<string>,
    record: Record)

  /** The files under the skipped directories, in each of the five places. */
  datatype Skipped = Skipped(source: Tree, partial: Tree, pending: Tree, rejected: Tree, library: Tree)

  predicate Terminal(state: CaseState) {
    state in {Promoted, Rejected, RolledBack}
  }

  /** How many of the five places hold exactly the tree `t`. */
  function Copies(s: Store, t: Tree): nat {
    (if s.source == Some(t) then 1 else 0)
    + (if s.partial == Holding(t) then 1 else 0)
    + (if s.pending == Holding(t) then 1 else 0)
    + (if s.rejected == Holding(t) then 1 else 0)
    + (if s.library.FiledAt? && s.library.tree == t then 1 else 0)
  }

  /** Every file of `files` is in `t` with its content. */
  predicate Contains(t: Tree, files: Tree) {
    forall name | name in files :: name in t && t[name] == files[name]
  }

  ghost predicate DirContains(d: CaseDir, files: Tree) {
    d.Holding? && Contains(d.tree, files)
  }

  /** One of the places other than .partial has every file of `files`. */
  ghost predicate HeldElsewhere(s: Store, files: Tree) {
    || (s.source.Some? && Contains(s.source.value, files))
    || DirContains(s.pending, files)
    || DirContains(s.rejected, files)
    || (s.library.FiledAt? && Contains(s.library.tree, files))
  }

  /** Every file of `files` is still together in one place. */
  ghost predicate Holds(s: Store, files: Tree) {
    DirContains(s.partial, files) || HeldElsewhere(s, files)
  }

  /** How many of the five places hold a payload at all. */
  function Occupied(s: Store): nat {
    (if s.source.Some? then 1 else 0)
    + (if s.partial.Holding? then 1 else 0)
    + (if s.pending.Holding? then 1 else 0)
    + (if s.rejected.Holding? then 1 else 0)
    + (if s.library.FiledAt? then 1 else 0)
  }

  /** The same trees, in the same numbers, wherever they are. */
  ghost predicate SameTrees(s: Store, s': Store) {
    && Occupied(s) == Occupied(s')
    && forall t :: Copies(s, t) == Copies(s', t)
  }

  // ------------------------------------------------------------ atomic moves (os.replace)

  datatype Move =
    | SourceToPartial          // rename the source directory into .partial
    | PartialToPending         // publish
    | PendingToRejected        // reject, the whole case directory
    | PayloadToLibrary(dest: string)
    | PayloadToSource          // rollback

  /** What is moved exists. */
  predicate MoveSourceExists(s: Store, m: Move) {
    match m
    case SourceToPartial => s.source.Some?
    case PartialToPending => !s.partial.Missing?
    case PendingToRejected => !s.pending.Missing?
    case PayloadToLibrary(_) => s.pending.Holding?
    case PayloadToSource => s.pending.Holding?
  }

  /** Nothing is where it is moved to. */
  predicate MoveTargetFree(s: Store, m: Move) {
    match m
    case SourceToPartial => s.partial.Scaffold?
    case PartialToPending => s.pending.Missing?
    case PendingToRejected => s.rejected.Missing?
    case PayloadToLibrary(d) => s.library.NotFiled? && d !in s.taken
    case PayloadToSource => s.source.None?
  }

  predicate Movable(s: Store, m: Move) {
    MoveSourceExists(s, m) && MoveTargetFree(s, m)
  }

  function Moved(s: Store, m: Move): Store
    requires Movable(s, m)
  {
    match m
    case SourceToPartial => s.(source := None, partial := Holding(s.source.value))
    case PartialToPending => s.(partial := Missing, pending := s.partial)
    case PendingToRejected => s.(pending := Missing, rejected := s.pending)
    case PayloadToLibrary(d) => s.(pending := Scaffold, library := FiledAt(d, s.pending.tree))
    case PayloadToSource => s.(pending := Scaffold, source := Some(s.pending.tree))
  }

  /** Skipped files move with the directory they are in. */
  function SkippedMoved(k: Skipped, m: Move): Skipped {
    match m
    case SourceToPartial => k.(source := map[], partial := k.source)
    case PartialToPending => k.(partial := map[], pending := k.partial)
    case PendingToRejected => k.(pending := map[], rejected := k.pending)
    case PayloadToLibrary(_) => k.(pending := map[], library := k.pending)
    case PayloadToSource => k.(pending := map[], source := k.pending)
  }

  /** A rename moves payloads and destroys or duplicates none. */
  lemma MovesConserveTrees(s: Store, m: Move)
    requires Movable(s, m)
    ensures SameTrees(s, Moved(s, m))
  {
  }

  // ------------------------------------------------------------ places

  datatype Place = SourcePlace | PartialPlace | PendingPlace | RejectedPlace | LibraryPlace

  function From(m: Move): Place {
    match m
    case SourceToPartial => SourcePlace
    case PartialToPending => PartialPlace
    case PendingToRejected => PendingPlace
    case PayloadToLibrary(_) => PendingPlace
    case PayloadToSource => PendingPlace
  }

  function To(m: Move): Place {
    match m
    case SourceToPartial => PartialPlace
    case PartialToPending => PendingPlace
    case PendingToRejected => RejectedPlace
    case PayloadToLibrary(_) => LibraryPlace
    case PayloadToSource => SourcePlace
  }

  /** The payload at a place. */
  function PayloadAt(s: Store, p: Place): Option<Tree> {
    match p
    case SourcePlace => s.source
    case PartialPlace => if s.partial.Holding? then Some(s.partial.tree) else None
    case PendingPlace => if s.pending.Holding? then Some(s.pending.tree) else None
    case RejectedPlace => if s.rejected.Holding? then Some(s.rejected.tree) else None
    case LibraryPlace => if s.library.FiledAt? then Some(s.library.tree) else None
  }

  function SkippedAt(k: Skipped, p: Place): Tree {
    match p
    case SourcePlace => k.source
    case PartialPlace => k.partial
    case PendingPlace => k.pending
    case RejectedPlace => k.rejected
    case LibraryPlace => k.library
  }

  /** A rename brings the payload and the skipped files with it from the one place to the other, leaves neither behind, and
      touches no third place. */
  lemma SkippedTravelWithThePayload(s: Store, k: Skipped, m: Move)
    requires Movable(s, m)
    ensures var s', k' := Moved(s, m), SkippedMoved(k, m);
      && PayloadAt(s', To(m)) == PayloadAt(s, From(m)) && SkippedAt(k', To(m)) == SkippedAt(k, From(m))
      && PayloadAt(s', From(m)) == None && SkippedAt(k', From(m)) == map[]
      && (forall p | p != From(m) && p != To(m) ::
            PayloadAt(s', p) == PayloadAt(s, p) && SkippedAt(k', p) == SkippedAt(k, p))
      && s'.record == s.record && s'.taken == s.taken
  {
  }

  // ------------------------------------------------------------ assessment

  datatype Recovery =
    | NothingStaged
    | ResumePublication
    | RestartFromSource
    | PublishPartial
    | PartialUnusable
    | Complete
    | OrphanedPending
    | PendingInconsistent
    | TerminalCase
    | OperatorRequired

  predicate Automatic(r: Recovery) {
    r in {ResumePublication, RestartFromSource, PublishPartial, Complete}
  }

  /** Whether the payload in `d` is exactly `expected`. */
  predicate Agrees(d: CaseDir, expected: Tree) {
    d == Holding(expected)
  }

  function Assess(s: Store): Recovery {
    match s.record
    case NoRecord =>
      if !s.pending.Missing? then OrphanedPending
      else if !s.partial.Missing? then OperatorRequired
      else NothingStaged
    case Unreadable => OperatorRequired
    case Misfiled => OperatorRequired
    case Filed(m) =>
      if Terminal(m.state) then TerminalCase
      else if !s.pending.Missing? then
        if Agrees(s.pending, m.files) then Complete else PendingInconsistent
      else if m.state == PendingReview then PendingInconsistent
      else if m.transfer == CopyVerify then
        if s.source.None? then OperatorRequired
        else if Agrees(s.partial, m.files) then ResumePublication
        else RestartFromSource
      else if s.source.Some? then
        if s.partial.Holding? then OperatorRequired else RestartFromSource
      else if Agrees(s.partial, m.files) then PublishPartial
      else if !s.partial.Holding? then OperatorRequired
      else PartialUnusable
  }

  /** An operator has decided the case. */
  predicate Decided(s: Store) {
    s.record.Filed? && s.record.manifest.state in {Promoted, Rejected, RolledBack}
  }

  /** Whatever the source holds, the case is not recovery's: it has no readable record of its own, an operator has decided
      it, or its record and what is pending contradict each other. */
  predicate HandsOff(s: Store) {
    || !s.record.Filed?
    || Decided(s)
    || (s.pending.Missing? && s.record.manifest.state == PendingReview)
    || (!s.pending.Missing? && s.pending != Holding(s.record.manifest.files))
  }

  /** A transfer that did not get to `pending` left its payload where no transfer leaves it: a copy without a source, a
      rename with payloads in both places, or in neither, or with an unusable one. */
  predicate Unexplained(s: Store) {
    && s.record.Filed? && s.pending.Missing?
    && if s.record.manifest.transfer == CopyVerify then s.source == None
       else if s.source == None then s.partial != Holding(s.record.manifest.files)
       else s.partial.Holding?
  }

  /** The four automatic classifications are for exactly the other cases. */
  lemma AutomaticExactly(s: Store)
    ensures Automatic(Assess(s)) <==> !HandsOff(s) && !Unexplained(s)
  {
  }

  /** What each classification says of the record and of what is on the disk. */
  lemma ReasonsExactly(s: Store)
    ensures Assess(s) == NothingStaged <==> s.record == NoRecord && s.pending == Missing && s.partial == Missing
    ensures Assess(s) == OrphanedPending <==> s.record == NoRecord && s.pending != Missing
    ensures Assess(s) == TerminalCase <==> Decided(s)
    ensures Assess(s) == PendingInconsistent <==>
      s.record.Filed? && !Decided(s)
      && if s.pending == Missing then s.record.manifest.state == PendingReview
         else s.pending != Holding(s.record.manifest.files)
    ensures Assess(s) == Complete <==> s.record.Filed? && !Decided(s) && s.pending == Holding(s.record.manifest.files)
    ensures s.record.Filed? && !Decided(s) && s.pending == Missing && s.record.manifest.state != PendingReview ==> (
      var m := s.record.manifest;
      var verified := s.partial == Holding(m.files);
      Assess(s) ==
        match (m.transfer, s.source)
        case (CopyVerify, None) => OperatorRequired
        case (CopyVerify, Some(_)) => if verified then ResumePublication else RestartFromSource
        case (Rename, Some(_)) => if s.partial.Holding? then OperatorRequired else RestartFromSource
        case (Rename, None) =>
          if verified then PublishPartial else if s.partial.Holding? then PartialUnusable else OperatorRequired)
  {
  }

  // ------------------------------------------------------------ what recovery can rely on

  /** The record on disk describes this case: the inventory `files`, moved by `transfer`. */
  predicate Describes(r: Record, transfer: TransferMethod, files: Tree) {
    r.Filed? && r.manifest.transfer == transfer && r.manifest.files == files
  }

  /** The case is published, recorded as published, and nothing is left in flight. */
  predicate Published(s: Store, transfer: TransferMethod, files: Tree) {
    && Describes(s.record, transfer, files)
    && s.record.manifest.state == PendingReview
    && s.pending == Holding(files)
    && s.partial == Missing
    && (transfer == Rename ==> s.source == None)
  }

  /** Where a transfer can stop, once its record says `planned`, when nobody else changed the source: the source
      is whole, or (rename) .partial is the payload, or the payload is published. */
  predicate Interrupted(s: Store, transfer: TransferMethod, files: Tree) {
    && Describes(s.record, transfer, files)
    && !Terminal(s.record.manifest.state)
    && if s.pending.Missing? then
         && s.record.manifest.state != PendingReview
         && (s.source == Some(files) || (transfer == Rename && s.source == None))
         && (transfer == Rename ==> (s.source == None <==> s.partial == Holding(files)))
         && (transfer == Rename && s.source != None ==> !s.partial.Holding?)
       else
         && s.pending == Holding(files)
         && s.partial == Missing
         && (transfer == Rename ==> s.source == None)
  }

  /** Every crash point of a transfer is one that recovery finishes without an operator. */
  lemma InterruptedIsAutomatic(s: Store, transfer: TransferMethod, files: Tree)
    requires Interrupted(s, transfer, files)
    ensures Automatic(Assess(s))
    ensures Assess(s) == Complete <==> !s.pending.Missing?
  {
  }

  /** Recovery only restarts, and so only clears .partial, when .partial is not the verified payload; on the
      rename path only when there is nothing in it at all. */
  lemma RestartNeverDiscardsThePayload(s: Store)
    requires Assess(s) == RestartFromSource
    ensures s.source.Some?
    ensures !Agrees(s.partial, s.record.manifest.files)
    ensures s.record.manifest.transfer == Rename ==> SameTrees(s, s.(partial := Missing))
  {
  }

  /** Clearing .partial before looking at the source can destroy the only copy: a verified copy interrupted before
      publication, whose source others have removed since. */
  lemma ClearingPartialCanLoseThePayload()
    ensures
      var files := map["001.cbz" := "pages"];
      var s := Store(None, Holding(files), Missing, Missing, NotFiled, {},
                     Filed(Manifest(CopiedVerified, CopyVerify, files, 0)));
      && Assess(s) == OperatorRequired
      && Holds(s, files)
      && !Holds(s.(partial := Missing), files)
  {
  }

  /** A copy that stopped when every listed file was there and a skipped one was not counts as verified, so recovery
      publishes it as it is. */
  lemma VerifiedCopyCanLackSkippedFiles()
    ensures
      var files := map["001.cbz" := "pages"];
      var s := Store(Some(files), Holding(files), Missing, Missing, NotFiled, {},
                     Filed(Manifest(Planned, CopyVerify, files, 0)));
      var k := Skipped(map[".stversions/000.cbz" := "old pages"], map[], map[], map[], map[]);
      && Interrupted(s, CopyVerify, files)
      && Assess(s) == ResumePublication
      && !Contains(k.partial, k.source)
  {
    assert ".stversions/000.cbz" in map[".stversions/000.cbz" := "old pages"];
  }
}
