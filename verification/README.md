# Verified models of the comic automation suite

A Dafny project that models eight parts of the suite and proves what they are for. `dafny verify dfyconfig.toml`
checks all of it. The source is cited by path and line; nothing in it was executed.

**Crash and concurrency protocols**

- `StagingStore`, `StagingRun` (`scripts/cbz_classification_staging.py`): a payload tree travels from its source through
  `.partial` and `pending` to the library, to `rejected` or back. The store is a value with the five places and the
  record; `CaseRun` runs the program's steps on it. Between any two steps others may replace the source by anything and
  the process may die. Files under the directory names that the inventory skips travel beside it. A ghost account records
  what the program destroyed.
- `InventorySnapshot` (same file): `build_inventory` reads a history of trees that others go on writing; an inventory it
  returns is the tree at one instant.
- `LockSystem`, `StableLock` (`scripts/cbz_lock_order.py`): any number of threads, re-entrant locks and per-thread records
  as a transition system, and `stable_series_lock` as a program on it, with the steps of other threads in between.

**Languages, printers and rewriters**

- `CanonicalNumbers`, `CanonicalTokens`, `SeriesText`, `CanonicalName`, `CanonicalFormat`
  (`scripts/cbz_canonical_name.py`): the grammar of canonical names, construction of the fields, formatting and parsing.
  Names are unambiguous, the runtime self-check can never refuse, and parsing accepts exactly what formatting gives.
  `NumberedNames` says which spellings of a number a name can have, `GuardRules` which series names are refused.
- `Cleaning`, `StandingMarkers`, `RepairedMarkers`, `DeletingRules` (`scripts/cbz_core.py`): the cleaning pass and its
  fixpoint loop, the hex repair and the deleting rules for URLs, scan groups, slashes and G-codes before it, and why for
  every choice of these rules the loop ends within its bound. `BracketRules` and `DeletionMeanings` say of the text itself
  what a pass takes out of it and what it keeps.
- `HexRepair` (`scripts/cbz_core.py`): repair of characters written as the hex of their UTF-8 bytes, with UTF-8 as in
  sections 3 and 4 of RFC 3629; repairing undoes the corruption.
- `RoutingPredicates`, `OperatorMeanings`, `RoutingV1`, `WatcherRoute`, `SeriesIndex`, `Sampling`
  (`scripts/cbz_routing.py`, `scripts/cbz_watcher.py`, `scripts/cbz_watcher_router.py`): what every operator answers;
  validation makes evaluation total; when converted version 1 files route as the watcher does by the old ones; the series
  index does not depend on the order of observations, and stopping at a terminal sample loses nothing.

**Indexes and destructive merges that must lose nothing**

- `SeriesRegistry` (`comic_automation/series_resolver.py`): the incremental registry equals one built from scratch.
- `LibraryTree`, `PlainNames`, `QuarantinePaths`, `ApostropheMerge` (same file): merging names that differ in apostrophes
  loses no content, whether the run succeeds or fails, and when it can and when it must fail.
- `ArchiveDedupe`, `SeriesGroups` (`scripts/cbz_library_maintenance.py`): only proven duplicates are deleted, and the groups
  of possible series are the connected components of the neighbour graph.

`Outcomes` has the shared `Option` and `Result`, `Ordering` strict total orders and ascending enumerations.

## Findings

The proofs found places where the code does not do what its comments say, or does it only under a condition. Each is a
lemma or an exact contract.

- `execute_transfer` clears `.partial` on the copy path before it looks at the source. If `.partial` has the only complete
  copy (a verified copy interrupted before publication, whose source others removed since), calling it again destroys that
  copy. The contract of `StagingRun.CaseRun.ExecuteTransfer` says exactly when: the call is not refused and the payload is
  complete in `.partial` alone. `StagingStore.ClearingPartialCanLoseThePayload` is a concrete store. Recovery never does it.
- A release deletes what the inventory does not list. `build_inventory` skips directories such as `.stversions`, but
  `copytree` and `rmtree` do not, so a file that arrives there after the copy passes the revalidation and is deleted with
  the source. `StagingRun.CaseRun.ReleaseCopiedSource` says exactly when that happens. Nobody else need be involved: a copy
  interrupted after its last listed file but before a skipped one verifies, so recovery resumes from it and may release the
  source (`StagingRun.CaseRun.RecoverCase`, `StagingStore.VerifiedCopyCanLackSkippedFiles`).
- The order check of the locks judges re-entry by class and key, not by object. With two lock objects for one key it lets
  two threads deadlock. `LockSystem.DeadlockExactly` says for every set of lock objects when that can happen: exactly when
  two of them are for one class and key, or a series lock was made without the registry, which then makes another.
- The docstring of `_to_fixpoint` says that every pass that changes the text strictly lowers (length, characters other than
  spaces), because the bracket around a re-attached marker was deleted. With the URL rule on, that is not so:
  `a.com/( uncensored)foo` becomes `uncensoredfoo uncensored`, which is longer (`DeletingRules.ShortUrlLengthens`, and
  `DeletingRules.AUrlCanLengthen` for a family). `Cleaning.PassLowersExactly` says for every text and any deleting rules when
  a pass lowers; it compares the text with what the pass leaves of it, so it has to be run to check it. The guard a caller
  can check before the call is `Cleaning.PassWithoutMarkersLowers`: no marker stands in a bracket. The bound on the number
  of passes holds nevertheless, for every choice of the rules modelled, with the brackets rule or without
  (`DeletingRules.EveryRuleSetIsIdempotent`).
- `parse` does not check the list named by `domain_in_list`, accepts a matcher over the field `""`, and looks at the
  combinators of an object in the order of a `frozenset`, while evaluation looks at `any`, `all`, `not`. Each can make a
  config that was accepted raise later (`RoutingPredicates.MatcherIsTotalExactly`,
  `RoutingPredicates.TwoCombinatorsEscapeValidation`); the orders agree exactly on objects without two combinators
  (`RoutingPredicates.OrderIsIrrelevantExactly`). For the same reason a version 1 rule that matches on the field `""`
  converts to a rule that raises; `RoutingV1.ConversionKeepsRoutingExactly` gives the exact condition.
- `_convert_v1` promises not to change which files go where, but `_resolve_route` in the watcher reads version 1 files
  differently. It skips rules whose `match` is not literally `source` or `title`, where the converted rule looks the field up
  without regard to case (`WatcherRoute.TitleRoutesElsewhere`); a rule with a pattern and no destination wins there with the
  default, and is dropped by the conversion (`WatcherRoute.NoDestinationRoutesElsewhere`); and it compares in lower case where
  the converted rule compares case-folded. `WatcherRoute.RuleActsAlikeExactly` says for every rule when the two readings agree
  on it. Files of such rules route alike (`WatcherRoute.ConvertedAgreesWithWatcher`), and for every other rule there is a file
  that does not (`WatcherRoute.UnsafeRuleBreaksAFile`).
- The apostrophe merge makes the directories it needs in the quarantine, and `mkdir` raises when a file stands there. Nobody
  catches that, so the run ends with names left as they were, and so does every later run: the library has two different
  files `x’` and `x'` in a directory `D`, and the quarantine, which is kept between runs, has a file `D`
  (`ApostropheMerge.QuarantinedFileBlocks`, `ApostropheMerge.NormalizeAgain`). One run can also block itself, in the order in which the source lists names: three
  different files come to the name `a'`, so the third is quarantined as the file `a' (2)`, and then two different files `y`
  meet in directories of that name (`ApostropheMerge.NumberedFileBlocks`). No content is lost by a run that fails.
  `ApostropheMerge.Run.Normalize` says when no run fails and when every run does; where the quarantine has no apostrophes and
  no directory can come to the path of a file or a numbered path of one, this is an if and only if.
- `note_move` promises that a moved series is sticky, but files the folder under the name it was moved by, while `resolve`
  looks it up under the name that an override gives it. A series moved by an alias of an override without destination is
  classified from metadata again (`Sampling.AliasIsNotSticky`); `Sampling.Router.MoveThenClassify` says exactly when a moved
  series is sticky.

## Model

| member | source | states |
|---|---|---|
| StagingRun.RunAny | scripts/cbz_classification_staging.py:1208-2086 | Over every sequence of operations, each of which may crash anywhere, with source edits by others: on the rename path no step destroys or duplicates a tree and, unless others make the source appear or vanish, the payload is in exactly one of the five places; on the copy path the source was first deleted from when it was exactly the copied payload, and a full copy is still held beyond it; on both paths the payload is never lost, and some place holds it complete, while nobody else edits the source. No skipped file is deleted uncopied from the source unless a recovery releases it, or a transfer does while others add some; skipped files that go with a discarded `.partial` are not counted. Once an operator has decided the case, no later operation changes anything: only others change the source. |
| StagingRun.StageWithRetries | scripts/cbz_classification_staging.py:1208-1320 | A transfer followed by any number of recoveries, crashing anywhere, never leaves the states recovery handles; the first call to finish has published exactly the payload; nothing is lost on the way. |
| StagingRun.CaseRun.ExecuteTransfer | scripts/cbz_classification_staging.py:1208-1320 | Every crash point is one recovery finishes; a completed call is published, and releases the copied source exactly when asked to; the payload is lost exactly when a copy that is not refused clears a `.partial` that had the only complete copy; no skipped file is destroyed that others did not change meanwhile. |
| StagingRun.CaseRun.RecoverCase | scripts/cbz_classification_staging.py:1568-1687 | From any crash point an uninterrupted call publishes the payload, every crash point of the call is again recoverable, a further call changes nothing, and a `.partial` with the payload is never discarded. It refuses, undisturbed, exactly the cases that are not its own (no readable record, decided by an operator, record and `pending` in contradiction, payload where no transfer leaves it), touches nothing of a decided case, and only records a published one. Undisturbed, it destroys uncopied skipped files exactly when it resumes from a copy that lacks some and releases the source. |
| StagingRun.CaseRun.Replace | scripts/cbz_classification_staging.py:172-196 | A retried rename either makes its one move, with the skipped files in what it moves, or leaves everything as it was; the recheck runs again after every wait. An operator's move that can be made is not refused, and a held lock is an error only after the seventh attempt, unless what is moved went away. |
| StagingRun.CaseRun.Attempt | scripts/cbz_classification_staging.py:172-196 | One attempt makes the move or changes nothing; another follows only a wait after which the recheck held. |
| StagingRun.CaseRun.WaitAndCheck | scripts/cbz_classification_staging.py:172-196 | After a wait there is no go-ahead unless what is moved is there and the source still matches, or the operator's case is still ready. |
| StagingRun.CaseRun.ReleaseCopiedSource | scripts/cbz_classification_staging.py:199-213 | The copied source is deleted only while the published copy is whole and only if its listed files were the payload when deletion began; skipped files are destroyed uncopied exactly when the published copy lacks some of them. |
| StagingRun.CaseRun.RevalidateSource | scripts/cbz_classification_staging.py:455-493 | Success means the listed files of the source are at that instant exactly the payload; an unchanged whole source is never refused. Each refusal has the error of its reason. |
| StagingRun.CaseRun.ClearTheWay | scripts/cbz_classification_staging.py:1263-1276 | It gets past the refusals exactly when the case is startable, and removes nothing but `.partial`. Each refusal has the error of its reason. |
| StagingRun.CaseRun.Begin | scripts/cbz_classification_staging.py:1263-1289 | The case is recorded as planned before anything is moved, and stays one that recovery handles. |
| StagingRun.CaseRun.BringIn | scripts/cbz_classification_staging.py:1291-1308 | Success leaves exactly the payload in `.partial`; failure leaves a state recovery handles. A source is moved in only if it was seen to be the payload since the last wait, and without space no copy is made. |
| StagingRun.CaseRun.CopySource | scripts/cbz_classification_staging.py:1298-1299 | An undisturbed copy has every file of the source whole, skipped ones too, in whatever order they are written. |
| StagingRun.CaseRun.DiscardPartial | scripts/cbz_classification_staging.py:1269-1276 | Removing `.partial` file by file loses the payload exactly when no other place has it. |
| StagingRun.CaseRun.Publish | scripts/cbz_classification_staging.py:1558-1565 | Publishing moves `.partial` as it is to `pending` and records it; a crash in between is recoverable. A copy is published only if the source was seen to be the payload after the copy was complete. |
| StagingRun.CaseRun.RestartRename | scripts/cbz_classification_staging.py:1652-1673 | Restarting the rename from a whole source publishes it and refuses whenever `.partial` holds a payload. |
| StagingRun.CaseRun.RestartCopy | scripts/cbz_classification_staging.py:1675-1687 | Redoing the copy from the revalidated source publishes it, and loses nothing unless others edit the source meanwhile. |
| StagingRun.CaseRun.PromoteCase | scripts/cbz_classification_staging.py:1913-1961 | Promotion needs the record the operator saw, the exact payload in pending and a free destination, and files exactly that payload there. A case that is ready is promoted unless a lock holds it or the process dies, and one that is not is refused untouched. |
| StagingRun.CaseRun.RejectCase | scripts/cbz_classification_staging.py:2004-2030 | Rejection moves the pending case as it is and records it; a refusal touches nothing. A case that is ready is rejected unless a lock holds it or the process dies. |
| StagingRun.CaseRun.RollbackCase | scripts/cbz_classification_staging.py:2033-2086 | Rollback returns exactly the payload to an absent source, for renamed cases only. A case that is ready is rolled back unless a lock holds it or the process dies, and one that is not is refused untouched. |
| StagingStore.MovesConserveTrees | scripts/cbz_classification_staging.py:172-196 | Every rename keeps the number of places in use and the number of copies of every tree. |
| StagingStore.SkippedTravelWithThePayload | scripts/cbz_classification_staging.py:172-196 | Every rename brings the payload and the skipped files with it from one place to the other, leaves neither behind and touches no third place. |
| StagingStore.InterruptedIsAutomatic | scripts/cbz_classification_staging.py:1388-1544 | Every interrupted state is classified as automatic, and as complete exactly when the payload is published. |
| StagingStore.AutomaticExactly | scripts/cbz_classification_staging.py:1388-1544 | A case is classified as automatic exactly when it has a readable record that no operator has decided, record and `pending` agree, and the payload is where the transfer leaves it. |
| StagingStore.ReasonsExactly | scripts/cbz_classification_staging.py:1388-1544 | For every classification the record and the places on disk for which it is given. |
| StagingStore.RestartNeverDiscardsThePayload | scripts/cbz_classification_staging.py:1388-1544 | Recovery classifies a case as restart only when the source is there and `.partial` is not the payload; on the rename path it then holds nothing. |
| StagingStore.ClearingPartialCanLoseThePayload | scripts/cbz_classification_staging.py:1269-1276 | A concrete store that recovery leaves to the operator and where clearing `.partial` destroys the only copy. |
| StagingStore.VerifiedCopyCanLackSkippedFiles | scripts/cbz_classification_staging.py:1498-1502 | A concrete interrupted copy that recovery takes for verified although it lacks a skipped file of the source. |
| InventorySnapshot.BuildInventory | scripts/cbz_classification_staging.py:348-409 | A returned inventory is exactly the tree at one instant of the call; without writers it never reports a change. It fails to return only when the history ends first. |
| InventorySnapshot.HashStableFile | scripts/cbz_classification_staging.py:245-289 | A hashed file had that content and that fingerprint at one instant of the read. It reports a change only if somebody wrote. |
| InventorySnapshot.ReadAll | scripts/cbz_classification_staging.py:245-289 | A file that stays while it is read is read whole, with at most two reads more than it has full blocks. |
| InventorySnapshot.InventoryUnique | scripts/cbz_classification_staging.py:348-409 | A tree has one inventory, so an unchanged source mints the same case again. |
| InventorySnapshot.InventoryDetermines | scripts/cbz_classification_staging.py:348-409 | Trees with one inventory have the same files with the same content. |
| LockSystem.DeadlockFree | scripts/cbz_lock_order.py:106-137 | In no reachable state of any number of threads is there a cycle of threads waiting for one another. |
| LockSystem.RequestsExactly | scripts/cbz_lock_order.py:106-120 | By class: a series lock is given exactly to a thread that has nothing or has that very lock, the index lock to one that has it or has only series locks. |
| LockSystem.SomebodyCanMove | scripts/cbz_lock_order.py:106-137 | In every reachable state with a waiting thread, some thread can take a step. |
| LockSystem.StepKeepsInv | scripts/cbz_lock_order.py:106-248 | Every step keeps: one lock object for each key, records that agree with ownership depth, at most one series key held by a thread, bodies under a held key. |
| LockSystem.RecordedMeansOwned | scripts/cbz_lock_order.py:106-137 | A lock on a thread's record is owned by that thread, so re-entry judged by class and key never blocks. |
| LockSystem.BodiesExclude | scripts/cbz_lock_order.py:289-337 | Two threads inside stable-identity bodies at once are there under different keys. |
| LockSystem.DeadlockExactly | scripts/cbz_lock_order.py:106-120 | From any set of idle lock objects, whoever made them, some run of some threads deadlocks exactly when two objects are for one (class, key) or a series lock is not the one in the registry. |
| LockSystem.TwinsDeadlock | scripts/cbz_lock_order.py:106-120 | For any two objects of one lock and any two threads, the run of six steps, each of which passes the order check, that ends with the threads waiting for each other. |
| StableLock.Threads.StableSeriesLock | scripts/cbz_lock_order.py:289-337 | At most two keyed acquisitions, each of the identity just resolved; the body ran exactly when the key resolved under the lock is the key held; unstable exactly when two re-resolutions moved; every exit leaves the thread holding what it held. |
| StableLock.Threads.TryUnder | scripts/cbz_lock_order.py:324-333 | One keyed acquisition runs the body exactly when the key re-resolved under the lock is the same, and releases the lock on every exit. |
| StableLock.Threads.ForSeries | scripts/cbz_lock_order.py:229-248 | The registry gives one lock object for a key, made at most once, and refuses an empty key. |
| StableLock.Threads.Acquire | scripts/cbz_lock_order.py:122-133 | A request out of order is refused before it blocks; otherwise the lock is owned and on record. |
| StableLock.Threads.Release | scripts/cbz_lock_order.py:135-137 | Releasing takes one entry off the record exactly when the lock is on it. |
| CanonicalNumbers.CanonicalNumberIsCanonical | scripts/cbz_canonical_name.py:256-293 | Normalising a number twice is normalising it once. |
| CanonicalNumbers.CanonicalOfPadded | scripts/cbz_canonical_name.py:296-302 | A padded canonical number, single or range, reads back as that number. |
| CanonicalNumbers.PadNumber | scripts/cbz_canonical_name.py:296-303 | The padding loop puts zeros, and nothing else, in front of each end of a number, so that its whole part has as many digits as the width or as it had. |
| CanonicalNumbers.NumberIsPadded | scripts/cbz_canonical_name.py:296-303 | So for every number and width, single or range. |
| NumberedNames.PaddedExactly | scripts/cbz_canonical_name.py:296-303 | A spelling of a whole number is the padded one exactly when it has as many digits as the width, or more and no zero in front. |
| NumberedNames.VolumeSpelling | scripts/cbz_canonical_name.py:548-567 | A name with a volume is accepted exactly when it has two digits, or more and no zero in front, and gives that number. |
| NumberedNames.IssueSpelling | scripts/cbz_canonical_name.py:548-567 | The same of an issue, with three digits. |
| NumberedNames.ChapterSpelling | scripts/cbz_canonical_name.py:548-567 | A chapter has no zero in front. |
| NumberedNames.IntegersAreTheirText | scripts/cbz_canonical_name.py:256-293 | An integer is accepted exactly when it is not negative, and stands for its own decimal text. |
| NumberedNames.TextsKeepTheirValue | scripts/cbz_canonical_name.py:256-293 | A text is accepted as a number exactly when it is one, and both ends keep their values. |
| NumberedNames.DecimalsAreRead | scripts/cbz_canonical_name.py:256-293 | The value by which the ends of a range are compared is that of the decimal: the whole part, and the digits behind the point as tenths, hundredths and so on. |
| NumberedNames.YearsAndVersions | scripts/cbz_canonical_name.py:306-331 | A text is a year exactly when it has four digits and at least the value 1000, a version exactly when it is digits without a zero in front. |
| NumberedNames.OtherArguments | scripts/cbz_canonical_name.py:256-331 | Integers are years and versions in the same ranges as texts; other values are refused and absent ones stay absent. |
| NumberedNames.ReservedStem | scripts/cbz_canonical_name.py:469-474 | A name is reserved exactly when what stands before its first dot, without spaces behind it, is a device name. |
| NumberedNames.LengthCounts | scripts/cbz_canonical_name.py:465-466 | The length of a name counts two for every character beyond 0xFFFF and one for every other. |
| CanonicalTokens.RenderInjective | scripts/cbz_canonical_name.py:450-462 | What follows the series in a name can be read as tokens in one way only. |
| CanonicalTokens.CutEndsInToken | scripts/cbz_canonical_name.py:450-462 | If a shorter series let the pattern match, the full series would end in a token. |
| SeriesText.SanitizeIdempotent | scripts/cbz_canonical_name.py:218-241 | Sanitising a series name twice is sanitising it once. |
| SeriesText.SanitizedNamesAFolder | scripts/cbz_canonical_name.py:218-241 | A sanitised name has no forbidden or control character, single inner spaces only and no dot at its end, and a composed name that is so already is not changed. |
| SeriesText.GuardCoversTokens | scripts/cbz_canonical_name.py:348-360 | Every token text the pattern reads, the trailing-token guard rejects at the end of a series. |
| GuardRules.GuardExactly | scripts/cbz_canonical_name.py:348-360 | The guard refuses a series name exactly when from some place to its end there stands a volume, chapter or special word that starts a word, or an issue, year, version or edition. |
| CanonicalName.MakeGivesFields | scripts/cbz_canonical_name.py:406-438 | What construction accepts keeps all field invariants. |
| NumberedNames.MakeAcceptsExactly | scripts/cbz_canonical_name.py:406-438 | Construction accepts exactly the well-formed arguments that fit together, with a series that sanitising leaves and that does not end in a token; every refusal has the error of its reason. |
| CanonicalName.TokensInjective | scripts/cbz_canonical_name.py:450-462 | Different groups of the pattern give different token lists. |
| CanonicalFormat.FieldsAreWhatConstructionGives | scripts/cbz_canonical_name.py:406-438 | The field invariants hold exactly of the fields that some construction returns. |
| CanonicalFormat.Assemble | scripts/cbz_canonical_name.py:477-495 | Appending the parts and joining them writes the series and then the tokens of the groups. |
| CanonicalFormat.RoundTrip | scripts/cbz_canonical_name.py:498-545 | The name of every field set that construction accepts parses back to exactly that field set. |
| CanonicalFormat.NamesAreUnambiguous | scripts/cbz_canonical_name.py:477-505 | Two different field sets never share a name. |
| CanonicalFormat.SelfCheckIsUnreachable | scripts/cbz_canonical_name.py:508-545 | Formatting fails only for a reserved or too long name, never by its self-check. |
| CanonicalFormat.ParseAcceptsExactlyTheImage | scripts/cbz_canonical_name.py:548-567 | Parsing returns fields for a name exactly when formatting those fields gives that name. |
| CanonicalFormat.TodaysWordsAreSafe | scripts/cbz_canonical_name.py:95-117 | The closed word lists as they stand meet what the grammar needs of them. |
| DeletingRules.SanitizeName | scripts/cbz_core.py:702-720 | For every choice of the URL, scan-group, brackets and Windows rules, over a pass without HTML entities and title shortening, the result is a fixpoint of the pass, and the loop's error is never raised. |
| DeletingRules.EveryRuleSetIsIdempotent | scripts/cbz_core.py:702-720 | For every such choice and pass, cleaning twice is cleaning once, and the result has no underscore, forbidden character, bracket, double or outer space, as far as the rules are on. |
| DeletingRules.EveryRuleSetIsBounded | scripts/cbz_core.py:670-681 | The hex repair and the deleting rules only shorten, and what they take out is longer than the bracketed markers that are lost with it, for every choice of rules. |
| RepairedMarkers.RepairKeepsMarkers | scripts/cbz_core.py:672 | Every marker that stands in a text stands in it after the hex repair. |
| RepairedMarkers.RepairPays | scripts/cbz_core.py:672 | The hex repair gives the text itself or a shorter one, and no marker has to be re-attached for it. |
| DeletingRules.UrlIsFair | scripts/cbz_core.py:165-170 | Every match of the URL pattern is longer than what it takes to re-attach the markers in it; no match cuts a marker, glues one to a word, or starts in or right after one it does not contain. |
| DeletingRules.ScanIsFair | scripts/cbz_core.py:171-174 | The same of the scan-group pattern, with its greedy runs. |
| DeletingRules.GCodePays | scripts/cbz_core.py:175-176 | Cutting off a G-code takes no marker. |
| DeletionMeanings.UrlExactly | scripts/cbz_core.py:165-170 | The URL rule matches at a text, and how far, exactly as said of the text: a prefix and what follows up to a space, or else a host, a dot, the first known ending that fits, and after a slash everything up to a space. |
| DeletionMeanings.ScanGroupExactly | scripts/cbz_core.py:171-174 | The scan-group rule matches exactly up to the last place where `scan`, or else `scanner`, or else `scanlation`, closes a word. |
| DeletionMeanings.TrailingSlashesGo | scripts/cbz_core.py:176 | Slashes and whitespace at the end go, and nothing before them. |
| DeletionMeanings.GCodeGoes | scripts/cbz_core.py:175 | A `G` at a word's edge and three to five digits at the end go, with spaces and hyphens before them, and nothing else. |
| DeletionMeanings.WithoutGCode | scripts/cbz_core.py:175 | A text that does not end so stays. |
| DeletionMeanings.NothingDeleted | scripts/cbz_core.py:670-681 | A text in which no rule that is on finds anything stays, whatever rules are off. |
| DeletionMeanings.AddressGoes | scripts/cbz_core.py:702-720 | A URL behind a name goes in cleaning, with the space before it, and the name is what is left. |
| DeletionMeanings.ScanGroupGoes | scripts/cbz_core.py:702-720 | The same of a scan-group word. |
| DeletionMeanings.GCodeGoesFromNames | scripts/cbz_core.py:702-720 | The same of a G-code with slashes behind it, under every rule set. |
| BracketRules.BlockInText | scripts/cbz_core.py:161 | After text without openers, a block from an opener to its first closer goes whole, and the rules look at what follows it; round and square. |
| BracketRules.OpenerAlone | scripts/cbz_core.py:161 | An opener without its closer behind it is no bracket. |
| BracketRules.NothingBracketedStays | scripts/cbz_core.py:161 | A text in which no opener has its closer stays. |
| BracketRules.StraysGo | scripts/cbz_core.py:163 | What is left of openers and closers goes, and nothing else. |
| BracketRules.BlockIsCleanedAway | scripts/cbz_core.py:683-699 | A block without a marker goes from the pass as if it had not been there. |
| BracketRules.TagGoes | scripts/cbz_core.py:702-720 | A tag in brackets behind a name goes in cleaning, with the space before it: `Berserk [Judas]` cleans to `Berserk`. |
| BracketRules.MarkerTagStays | scripts/cbz_core.py:619-633 | A tag that is `uncensored` or `decensored` up to case goes as a bracket and stays as a word behind the name. |
| BracketRules.PlainSurvives | scripts/cbz_core.py:670-695 | A text without brackets, underscores, forbidden characters and anything deleted survives the pass up to spacing. |
| BracketRules.OthersBecomeSpaces | scripts/cbz_core.py:690-695 | Without brackets and anything deleted, exactly the underscores and, with the Windows rule, the forbidden characters become spaces. |
| BracketRules.DoubleSpace | scripts/cbz_core.py:164 | Two spaces anywhere count as one. |
| StandingMarkers.StripPays | scripts/cbz_core.py:676-678 | Deleting the matches of a fair rule takes out more than re-attaching every marker kind that is lost would put back. |
| StandingMarkers.SeenOrEaten | scripts/cbz_core.py:676-678 | A marker that stood in the text stands in the result, or stood in a deleted match. |
| Cleaning.Sanitize | scripts/cbz_core.py:636-667 | For any functions before the brackets that shorten and pay for the bracketed markers they lose, or that only shorten when the brackets rule is on, the loop's error is never raised. |
| Cleaning.ToFixpoint | scripts/cbz_core.py:636-667 | For any step, the loop returns the fixpoint, or raises exactly when the last allowed step still changes the text. The bound is 2 * length + 2. |
| Cleaning.PassLowersExactly | scripts/cbz_core.py:636-657 | Whatever the rules delete, a pass that changes the text lowers (length, characters other than spaces) exactly when it re-attaches nothing, leaves nothing else, or takes out more than it re-attaches; this is about what the pass leaves, not a guard before it. |
| Cleaning.PassWithoutMarkersLowers | scripts/cbz_core.py:636-657 | The guard on the text alone: whatever the rules delete, a pass over a text without markers in brackets lowers or changes nothing. |
| Cleaning.CuttingTheEndIsBounded | scripts/cbz_core.py:680-681 | Rules that only cut something without brackets off the end, as those for trailing slashes and G-codes do, meet the condition of the bound with or without the brackets rule. |
| Cleaning.PreserveDecensorMarkers | scripts/cbz_core.py:619-633 | The loops over brackets and markers append each missing kind of marker once. |
| Cleaning.BracketedMarkersStayVisible | scripts/cbz_core.py:619-633 | Every marker that stood in a bracket of the source stands, between word boundaries, in the result of the pass. |
| Cleaning.MarkersSurviveCleaning | scripts/cbz_core.py:702-720 | Without deleting rules such a marker is still there at the fixpoint. |
| Cleaning.ChangingPassLowers | scripts/cbz_core.py:636-657 | Without deleting rules every pass that changes the text lowers (length, characters other than spaces). |
| Cleaning.PassLength | scripts/cbz_core.py:619-633 | What a pass adds is less than the brackets of its source. |
| DeletingRules.AUrlCanLengthen | scripts/cbz_core.py:645-657 | For every host of one or two word characters and every word that the hex repair leaves alone, the pass makes `host.com/( marker)word` longer, with the URL rule as it is. |
| DeletingRules.ShortUrlLengthens | scripts/cbz_core.py:645-657 | The pass makes `a.com/( uncensored)foo` longer. |
| HexRepair.RepairUndoesCorruption | scripts/cbz_core.py:532-616 | Text whose runs of accepted three-byte characters were written as lowercase hex is restored, if the runs are set apart from hex digits. |
| HexRepair.TextComesBack | scripts/cbz_core.py:566-575 | Each character of the accepted ranges is restored from the hex of its three bytes. |
| HexRepair.OtherHexStays | scripts/cbz_core.py:566-575 | The hex of every other character of three bytes stays. |
| HexRepair.FourBytesSpoilTheRun | scripts/cbz_core.py:578-616 | A character of four bytes spoils the run it stands in: nothing of it is repaired. |
| HexRepair.MalformedSpoilsTheRun | scripts/cbz_core.py:609-616 | Three bytes that UTF-8 forbids (a longer form than needed, or a surrogate) spoil the run they stand in. |
| HexRepair.RepairMojibake | scripts/cbz_core.py:532-563 | The loop, with its fast path, gives the specified repair, which is never longer than the text. |
| HexRepair.DecodeMojibakeRun | scripts/cbz_core.py:578-616 | The run at a position is consumed whole when it decodes to accepted characters, and not at all otherwise. |
| HexRepair.DecodeOfEncoded | scripts/cbz_core.py:609-616 | Decoding the UTF-8 bytes of three-byte characters gives those characters. |
| HexRepair.ShortFormsDecode | scripts/cbz_core.py:609-616 | Characters of one and two bytes decode as RFC 3629 says, and a byte that starts no sequence does not. |
| RoutingPredicates.ParsedConfigsEvaluate | scripts/cbz_routing.py:1188-1249 | In a config the parser accepts, every rule and signal evaluates to true or false on every context, under conditions a caller can check. |
| OperatorMeanings.EqualsMeans | scripts/cbz_routing.py:709-710 | `equals` answers true exactly when the field has a value that is not empty and equal up to case, and false otherwise. |
| OperatorMeanings.InMeans | scripts/cbz_routing.py:711-712 | `in` is the disjunction of `equals` over its items. |
| OperatorMeanings.InListMeans | scripts/cbz_routing.py:713-714 | `in_list` answers as `in` over the named list. |
| OperatorMeanings.GlobMeans | scripts/cbz_routing.py:715-716 | `glob` answers true exactly when there is a value and it matches the pattern, both case-folded. |
| OperatorMeanings.GlobInListMeans | scripts/cbz_routing.py:717-719 | `glob_in_list` is the disjunction of `glob` over the named list. |
| OperatorMeanings.GlobTokensMeans | scripts/cbz_routing.py:720-734 | `glob_tokens_in_list` answers true exactly when some token of the value that is not empty matches some pattern of the list. |
| OperatorMeanings.DomainMeans | scripts/cbz_routing.py:735-751 | `domain_in_list` answers true exactly when the host of the value is that of some item. |
| OperatorMeanings.ContainsMeans | scripts/cbz_routing.py:752-753 | `contains_any` answers true exactly when some item is part of the value, both case-folded. |
| OperatorMeanings.AbsentAndUndefined | scripts/cbz_routing.py:680-708 | An absent value answers false for every known operator; a list that is not defined raises for every other. |
| OperatorMeanings.MalformedRaises | scripts/cbz_routing.py:680-708 | A matcher without a field name, without exactly one operator or with an unknown one raises. |
| OperatorMeanings.NoPredicateRaises | scripts/cbz_routing.py:643-677 | A reference to no signal raises, and so does what is neither a reference nor an object. |
| OperatorMeanings.FirstRuleWins | scripts/cbz_routing.py:824-850 | The first rule that holds gives the destination, the default does when none holds, and otherwise resolving raises. |
| OperatorMeanings.CombinatorsAcceptedExactly | scripts/cbz_routing.py:1225-1235 | An object with one combinator is accepted exactly with a list of accepted predicates that is not empty, or with one accepted predicate under `not`, in every order of looking. |
| OperatorMeanings.MatchersAcceptedExactly | scripts/cbz_routing.py:1237-1249 | A matcher is accepted exactly with a field, one known operator, and a defined list where `in_list` or a glob operator names it. |
| OperatorMeanings.ReferencesAcceptedExactly | scripts/cbz_routing.py:1213-1220 | A reference is accepted exactly when its signal is defined, is not on the way to it, and is accepted itself. |
| RoutingPredicates.ParsedConfigsResolve | scripts/cbz_routing.py:760-850 | Routing by such a config never raises. |
| RoutingPredicates.CombinatorsMeanTheirNames | scripts/cbz_routing.py:657-675 | Although evaluation stops early, `any` answers the disjunction and `all` the conjunction of what the children answer. |
| RoutingPredicates.NegationAndSignals | scripts/cbz_routing.py:643-664 | `not` negates its child, and a signal answers as its definition. |
| RoutingPredicates.Answers | scripts/cbz_routing.py:643-677 | A validated node has an answer: unseen signals and node depth bound the recursion. |
| RoutingPredicates.AnswerIs | scripts/cbz_routing.py:643-677 | The answer does not depend on the bound on calls. |
| RoutingPredicates.MatcherIsTotalExactly | scripts/cbz_routing.py:1237-1249 | A validated matcher answers on every context exactly when its field has a name and its list is defined. |
| RoutingPredicates.TwoCombinatorsEscapeValidation | scripts/cbz_routing.py:1225-1235 | An object that validation accepts in one iteration order and evaluation refuses. |
| RoutingPredicates.OrderIsIrrelevantExactly | scripts/cbz_routing.py:1225-1235 | Validation looks at the combinator that evaluation looks at in every order of iteration, exactly when the object has no two combinators. |
| RoutingV1.ConversionKeepsRoutingExactly | scripts/cbz_routing.py:920-964 | With version 1 rules read as the new engine reads fields (looked up without regard to case, absent is no match, rules without pattern or destination skipped), the converted config routes every context as they do exactly when no rule matches on a field without name. |
| RoutingV1.Convert | scripts/cbz_routing.py:920-964 | The conversion files every run under its own list and signal name, with one rule for each run in order. |
| RoutingV1.CollectRuns | scripts/cbz_routing.py:932-941 | The grouping loop folds consecutive rules with one field and destination. |
| RoutingV1.NamesAreDistinct | scripts/cbz_routing.py:943-946 | No two runs share a list name, and no two share a signal name. |
| RoutingV1.RunsRoute | scripts/cbz_routing.py:920-941 | Folding rules into runs keeps the first match. |
| WatcherRoute.ConvertedAgreesWithWatcher | scripts/cbz_watcher.py:1879-1913 | A converted file of safe rules that the parser accepts sends every archive to the key and the path that the watcher gives it by the old file. |
| WatcherRoute.WatcherTakesTheFirst | scripts/cbz_watcher.py:1896-1913 | The watcher goes by the first rule over `source` or `title`, so written, whose pattern matches that name in lower case, also when it has no destination, and by the default when there is none. |
| WatcherRoute.RuleActsAlikeExactly | scripts/cbz_watcher.py:1896-1911 | A rule acts alike in the watcher and converted, on every archive, exactly when it is a comment, or is over `source` or `title` so written, has a destination, and matches the same names in lower case and case-folded (or has none and matches none), or is over a field no archive has. |
| WatcherRoute.UnsafeRuleBreaksAFile | scripts/cbz_watcher.py:1896-1911 | For every other rule there is an accepted file, safe but for this rule, by which some archive goes to another path once converted. |
| WatcherRoute.TitleRoutesElsewhere | scripts/cbz_watcher.py:1901-1906 | A file with one rule over `Title` sends every archive to the default in the watcher and to the rule's destination when converted. |
| WatcherRoute.NoDestinationRoutesElsewhere | scripts/cbz_watcher.py:1897-1911 | A rule that matches all and has no destination hides the rules behind it in the watcher, and hides none when converted. |
| SeriesIndex.Index.Add | scripts/cbz_routing.py:482-506 | After an add, every dictionary holds the best observation of every path of its bucket, and nothing else. A folder with an ignored name is filed apart, one without a key too, and any other under its key, and no other key changes. |
| SeriesIndex.Index.AddAll | scripts/cbz_routing.py:492-506 | After any sequence of adds the index stands for the set of observations. |
| SeriesIndex.Index.Locations | scripts/cbz_routing.py:508-511 | The locations of a name are the best observation of every path, by priority. |
| SeriesIndex.Index.Lookup | scripts/cbz_routing.py:513-520 | A lookup finds the first of the locations, and nothing only when there is none. |
| SeriesIndex.Index.IsAmbiguous | scripts/cbz_routing.py:522-528 | A name is ambiguous exactly when it has more than one location. |
| SeriesIndex.Index.Diagnostics | scripts/cbz_routing.py:530-540 | The collisions are exactly the keys with several paths, ascending, each with its locations; empty keys and exclusions are listed by priority. |
| SeriesIndex.OrderDoesNotMatter | scripts/cbz_routing.py:471-540 | Two indexes that saw the same directories hold the same. |
| SeriesIndex.AddInTwoOrders | scripts/cbz_routing.py:471-540 | Two permutations, with repeats, of the same adds give the same index and the same answers: locations, lookup, ambiguity and all three parts of the diagnostics. |
| SeriesIndex.SameCollisions | scripts/cbz_routing.py:530-540 | The list of collisions is determined by what was observed. |
| SeriesIndex.OneLocationForEachPath | scripts/cbz_routing.py:482-490 | No path has two locations. |
| SeriesIndex.EntryOrderIsStrict | scripts/cbz_routing.py:478-480 | The entry order is a strict total order, so there is one best observation. |
| SeriesIndex.OrderOfEntries | scripts/cbz_routing.py:436-480 | Entries come in the order of their destinations in the configured priority, those not in it last, and then by destination, folded path and path. |
| Sampling.Classify | scripts/cbz_watcher_router.py:274-299 | Stopping at a terminal sample gives the first sample that no sample outranks. It reads up to the first terminal sample, and all when none is. |
| Sampling.ResolvingTerminalIsBest | scripts/cbz_routing.py:546-570 | No sample outranks a terminal one when all are resolved by one config, series and index. |
| Sampling.RankingExactly | scripts/cbz_routing.py:546-560 | An authoritative decision outranks one that is not; else strong evidence outranks weak and none, and weak none. |
| Sampling.TerminalExactly | scripts/cbz_routing.py:563-570 | A decision is terminal exactly when no decision without authority can outrank it, or it has authority itself. |
| Sampling.Precedence | scripts/cbz_routing.py:791-850 | A pinned series goes where it is pinned, one with a folder to that folder, any other by the first rule that holds, and else unresolved to the default. |
| Sampling.Router.OverrideIsFirst | scripts/cbz_routing.py:316-323 | The first override that names the series decides, and none does for a series without key. |
| Sampling.AuthorityIgnoresTheSample | scripts/cbz_routing.py:791-822 | Either every sample is authoritative and all decisions are equal, or none is. |
| Sampling.ParsedConfigsDecide | scripts/cbz_routing.py:760-850 | A parsed config decides every sample. |
| Sampling.Router.StandingOf | scripts/cbz_routing.py:791-822 | The override of the first match, and the first location of the effective name unless it is pinned. |
| Sampling.Router.NoteMove | scripts/cbz_watcher_router.py:341-368 | A completed move adds one observation exactly when the index is enabled and the folder is a destination. |
| Sampling.Router.MoveThenClassify | scripts/cbz_watcher_router.py:341-368 | After a noted move the series is decided without metadata exactly when it is pinned, had a folder before, or the move was indexed under a key that is the one looked up. |
| Sampling.AliasIsNotSticky | scripts/cbz_watcher_router.py:341-368 | A series moved by an alias of an override without destination is not found afterwards. |
| SeriesRegistry.RegisterThenRebuild | comic_automation/series_resolver.py:609-672 | After any sequence of registrations on a built registry the maps are those of a registry built from the series it lists, and disjoint. |
| SeriesRegistry.IndexedAt | comic_automation/series_resolver.py:422-453 | A key is in the alias map exactly when one series claims it and in the conflicts exactly when several do, with exactly those. |
| SeriesRegistry.IndexIsDetermined | comic_automation/series_resolver.py:422-453 | The claims determine both maps. |
| SeriesRegistry.Registry.Register | comic_automation/series_resolver.py:609-672 | Registering records the folder with its names and keeps both maps true. |
| SeriesRegistry.Registry.Claim | comic_automation/series_resolver.py:652-664 | One name makes the folder a claimant of its key and touches no other key. |
| SeriesRegistry.Registry.ResolveExact | comic_automation/series_resolver.py:486-509 | An exact resolve returns a folder exactly when it is the sole claimant, and all claimants exactly when there are several. |
| SeriesRegistry.Registry.Targets | comic_automation/series_resolver.py:422-445 | The loops over folders and names collect exactly the claimants of every key. |
| ApostropheMerge.Run.Normalize | comic_automation/series_resolver.py:94-205 | Success or failure, every content still exists in the library or the quarantine and only duplicates are gone. On success every name is plain and none is lost, and there was an action exactly when something was not plain. A tidy library never fails. A quiet one (no directory can come to the path of a file, or to a numbered one) does not fail when no two different files come to one path in a directory that a quarantined file may stand in the way of, and fails exactly then if the quarantine has no apostrophes. When such a file has no apostrophes, the run fails, and the next has to as well. |
| ApostropheMerge.NormalizeTwice | comic_automation/series_resolver.py:128-205 | After a run that succeeds, the inventory is empty, and a second run succeeds and changes nothing. |
| ApostropheMerge.NormalizeAgain | comic_automation/series_resolver.py:94-205 | Where two different files come to one path in a directory that a quarantined file stands in the way of, every one of any number of runs fails, and the library stays untidy. |
| ApostropheMerge.QuarantinedFileBlocks | comic_automation/series_resolver.py:716 | That is so for two different files of one plain name in a directory at whose path the quarantine has a file. |
| ApostropheMerge.NumberedFileBlocks | comic_automation/series_resolver.py:698-732 | From an empty quarantine, three different files of one name and then two directories of the numbered name with different files: the merge fails. |
| ApostropheMerge.NumberedDirectoryFirst | comic_automation/series_resolver.py:698-732 | The same merges in the other order all succeed, so outside quiet libraries success can depend on the order of listing. |
| ApostropheMerge.Run.Quarantine | comic_automation/series_resolver.py:183-185 | Quarantining fails exactly when a file of the quarantine is at or above the directory, and then changes nothing; otherwise the node is at the first free path. |
| ApostropheMerge.Run.RepairDirectory | comic_automation/series_resolver.py:193-200 | The bottom-up repair conserves every content, and makes the directory tidy unless it fails; in a regular library no file below a wall leaves its place. |
| ApostropheMerge.Run.RepairEntry | comic_automation/series_resolver.py:193-195 | A child directory is made tidy unless the repair fails; a file, and a directory whose name is excluded, is not touched. |
| ApostropheMerge.Run.MergeEntry | comic_automation/series_resolver.py:164-191 | Merging an entry conserves every content. On success it gives exactly the specified tree in all four cases (moved, directories merged entry by entry, the larger file, the target kept) and nothing of the source is left; for two files and for a type conflict it fails exactly when the quarantine's directory cannot be made. |
| ApostropheMerge.MergedIsTidy | comic_automation/series_resolver.py:164-200 | Tidy parts merge into a tidy whole, so repairing bottom-up is enough. |
| ApostropheMerge.Run.RenameAll | comic_automation/series_resolver.py:196-200 | Unless it fails, the names of a directory are afterwards exactly the plain forms of those before; when all were plain it does not fail and nothing changes. |
| ApostropheMerge.Run.SettleFileConflict | comic_automation/series_resolver.py:698-732 | It fails exactly when the files differ and the directory in the quarantine cannot be made, and then changes nothing. Otherwise the larger stays in place (the one already there when neither is) and the other is filed in the quarantine, or deleted exactly when they are identical. |
| ApostropheMerge.Run.Inventory | comic_automation/series_resolver.py:128-140 | The inventory is empty exactly when every name is plain, and lists only names that are not. |
| QuarantinePaths.UniquePath | comic_automation/series_resolver.py:75-84 | The search for a free path ends, and finds the path itself or the first number that is free. |
| LibraryTree.TakenExactly | comic_automation/series_resolver.py:75-84 | A path of the quarantine is taken exactly when something stored is at it, below it, or reaches it from above, and a file's exactly when a stored node has a file there. |
| QuarantinePaths.StillFails | comic_automation/series_resolver.py:94-205 | What stood below a wall before a run is there afterwards, so the run did not make the library tidy and the next one meets the same conflict. |
| QuarantinePaths.UnmarkedWallsAreCertain | comic_automation/series_resolver.py:716 | For a quarantine without apostrophes, a run may fail exactly when it must. |
| ArchiveDedupe.Dedupe | scripts/cbz_library_maintenance.py:530-606 | Every deleted archive has in the end another with the same fingerprint and at least its size, proposed by its own name key; with metadata, and only then, also by the ComicInfo key of the archive itself or of the one that took its place by name. Archives without fingerprint are never deleted; no two that stay share a name key and fingerprint, nor with metadata a ComicInfo key and fingerprint. |
| ArchiveDedupe.Folder.ResolveDupGroup | scripts/cbz_library_maintenance.py:500-527 | One CBZ of the group stays, no smaller than any other, and all others go (in a dry run none). Among the largest it is the first by name in lower case. |
| ArchiveDedupe.SplitGroupByContent | scripts/cbz_library_maintenance.py:477-497 | The parts are the classes of one fingerprint, and unreadable archives are apart. |
| ArchiveDedupe.CoveredTwice | scripts/cbz_library_maintenance.py:584-604 | An archive whose keeper of the first pass is deleted in the second is covered by the second keeper. |
| SeriesGroups.Groups | scripts/cbz_library_maintenance.py:1417-1453 | The groups are exactly the components of at least the minimum size, each once. |
| SeriesGroups.GroupsAreComponents | scripts/cbz_library_maintenance.py:1437-1453 | A folder is in a group exactly when it is connected to a member, and in no second group. |
| SeriesGroups.Search | scripts/cbz_library_maintenance.py:1439-1451 | The stack search from an unseen folder finds its whole component and nothing else. |
| SeriesGroups.Neighbours | scripts/cbz_library_maintenance.py:1417-1435 | The double loop links two folders both ways exactly when a pair of them in list order is linked. |

## Left out

- SHA-256, and the fingerprint of an archive's pages: taken as injective, so equal digests are equal contents.
- `TransferPlan` and manifest parsing, path checks, timestamps, Windows error codes and volume numbers of the staging code:
  a case has one inventory and one transfer method; a record is filed, absent, unreadable or misfiled.
- Revalidating the source and then moving or deleting it: the check and the first deletion are one step with respect to
  others' edits. A file copied only in part never equals the payload's file. Others edit the source only.
- RunAny: skipped files are counted as destroyed only where the source is released, not where a `.partial` with them is
  discarded, because on the copy path, where that happens, those are copies the program made.
- Two operators on one case at one instant: operations of one case follow one another.
- Reading a path in `build_inventory`: symbolic links and special files are not modelled; enumerations are atomic.
- Lock factories, non-blocking acquisition and the index lock inside a body: the body of `stable_series_lock` takes no other
  lock here and does not release its own.
- Unicode: composition, case folding, digits, spaces and word characters are functions with the stated properties.
- Python's limit on converting very long digit strings, and lone surrogates in names.
- `find_canonical_collisions`: easier than the above.
- Translation in the cleaning pass.
- SanitizeName: no HTML entities and no `shorten_mixed_original_title` in the pass. An entity before a marker can stick to it
  as a letter, so the condition of the bound (`Bounded`) fails for it without the brackets rule; with that rule it holds for
  anything that shortens (`Cleaning.Sanitize`).
- EveryRuleSetIsIdempotent: the same two rules are absent.
- Reasons and rule names of routing decisions; operands of the wrong JSON type; `destinations`, overrides and the other blocks
  of `parse`.
- RoutingPredicates.ParsedConfigsEvaluate: does not bound Python's recursion depth.
- Scanning the roots in `SeriesIndex.build` and its scan problems; which archives are sampled and what is read from them.
- Similarity scores of `resolve_from_registry`, the display order of aliases and conflicts, redirect chains and where
  `build_registry` finds the aliases of a folder.
- Symbolic links, I/O errors other than a file in the way of a quarantine directory, and names that differ only in case on
  disk in the apostrophe merge; trees are values here, and a directory that is merged or repaired is replaced by its new value.
- Normalize: outside quiet libraries it says when a run fails for certain and nothing about when it succeeds, because that
  can depend on the order in which directories are listed, which the model leaves open: `NumberedFileBlocks` and
  `NumberedDirectoryFirst` are one library in two orders.
- NormalizeTwice: says nothing of a second run after one that failed, except through `NormalizeAgain`.
- Counters, the log and the order of ties in the archive dedupe; lists of archives are sets.
- The display name of a possible-series group, and that a group without common words is dropped from the report.
