# QRX Node Suite: the update engine and its neighbours, verified

This project models the over-the-air update engine of the QRX agent and proves what it promises. The
engine is a small transactional system over a file system: per component a set of release
directories and three pointers, `current`, `previous` and `staged`. Two managers drive it (one for
the suite's own components, one for QRX Core), a boot guard carries a self-update across process
restarts, and a pure layer below orders versions, looks up the compatibility matrix and encodes the
signed manifest. Three more stateful components with guarantees over whole runs are modelled as well:
Guardian's restart budget, the adapter registry, and the alert engine with its event bus.

How the model is built:

- The file system is a class, `Store.Store`. Each pointer swap, directory creation, file write and
  directory removal is one step that happens entirely or fails and changes nothing. The store keeps
  the trail of all states its disk went through; a crash leaves the disk in any one of them.
- Everything outside the code's control (downloads, signatures, hooks, health checks, clock
  readings, I/O failures, the moment of a crash) is a parameter or a nondeterministic choice. Ghost
  counters tell failed pointer writes, failed directory steps, failed settings writes and failed
  history inserts apart, so that each promise names just the writes it depends on. The code ignores
  failed cleanups and prunes, and so do the promises.
- Methods follow the source's own steps, exit by exit. What they do is stated against functions of
  the old state (`Gates.Gate`, `Manager.InstallOutcome`, `Releases.Pruned`, `SelfUpdate.Boots`, ...),
  and the promises are proved about those functions. Module `Runs` then drives the methods through
  arbitrary sequences of calls.
- Each such function is also pinned down without itself, over the plain fields of its inputs
  (`Gates.GateExactly`, `SemVer.CompareExactly`, `Manager.ResultExactly`, `Releases.PruneExactly`, ...):
  dropping a check, turning an order around or skipping a write makes one of these fail.

| module | models |
|---|---|
| `Releases`, `Store`, `Pointers` | `agent/updates/store`: pointer protocol, crash safety, pruning, text pointers |
| `SemVer`, `Matrix`, `Lex`, `Decimal` | `agent/version`, sorting, decimal text |
| `Manifest`, `Verify`, `Policy` | the signed manifest, the checks on it, the settings table and history |
| `Gates`, `Manager` | `Manager.Check`, `Install`, `Rollback` |
| `SelfUpdate` | boot guard and deferred health check |
| `QrxCore` | the QRX Core manager |
| `Runs` | whole runs over both managers |
| `Registry`, `Guardian`, `Alerts`, `Bus`, `Itoa` | the other components |

Where the code and its own comments disagree, the model follows the code: `Promote` writes `previous`
before `current` (agent/updates/store/store.go:161-170, against 149-151), and a full event buffer
drops the new event (agent/events/bus.go:54-59, against 16-18).

Some properties one might expect are false of the code. Each is proved false on an input and has
its exact condition:

- A promotion that fails only at unlinking `staged` has already moved `current`. A caller that then
  discards the staged release destroys the active one exactly when the removal gets done
  (`Releases.StuckDiscardIsSafeIff`; `Releases.StuckDiscardWitness` is a trail). Self-binary installs
  and core updates do this, synchronous installs do not; `Runs.AnyRun` follows runs through it.
- `Compare` is not transitive. It fails on three strings exactly when one of them alone does not parse
  and lies bytewise between the other two against their order (`SemVer.CompareIsTransitiveExactly`);
  `SemVer.FallbackIsCyclic` and `SemVer.TieIsNotTransitive` are inputs.
- Automatic selection can activate an adapter that is not usable: exactly when the matrix row that
  applies to the best row's adapter carries a text the code does not know
  (`Registry.UnknownTextSlipsThrough`, run by `Registry.RunWithUnknownText`). It can fail and still
  move the active adapter: exactly when the activation works and no installed adapter reports the
  chosen name (`Registry.Registry.SelectAutomatic`, run by `Registry.RunWithHiddenName`).
- `Itoa` reads back as its argument exactly when that is not the least 64-bit integer (`Itoa.Itoa`).

The signed payload is promised to determine manifests whose strings hold no NUL, and that is proved
(`Manifest.PayloadIsInjective`); `Manifest.NulBreaksInjectivity` shows why the restriction is there.

## Model

| member | source | states |
|---|---|---|
| Runs.AnyRun | agent/updates/store/store.go:103-223 | In every run of installs, rollbacks, boots, bootstraps, core updates and switches, each failing anywhere and cut off after any disk step: whatever `current` or `previous` names is on disk (or was bootstrapped without a directory) and its contents never change while one of them names it, exactly if no step discards a release whose promotion got stuck; up to the first such step it holds anyway, and only a self-binary install or a core update can take it. |
| Runs.Perform | agent/updates/manager.go:408-472 | One such call, crash included, keeps that safety, only extends the store's trail, and wrecks the store only if it is of those two kinds. |
| Releases.UnchangedWhileNamed | agent/updates/store/store.go:84-102 | Along a safe trail a release keeps exactly its contents for as long as it is named. |
| Releases.ResumeAfterCrash | agent/updates/store/store.go:147-152 | Cutting a safe history at any step and continuing safely from there gives a safe history. |
| Releases.PerformedIsSafe | agent/updates/store/store.go:161-171 | If an operation's whole path is safe, so is every prefix of it that an I/O error can leave. |
| Releases.WreckIsUnsafe | agent/updates/store/store.go:139-144 | Removing a staged release that a pointer names really is unsafe, and everything before it was safe. |
| Releases.PerformedIsTraced | agent/updates/store/store.go:161-171 | Prefixes of safe paths keep a trail safe, or safe up to its wreck. |
| Releases.TracedKeepsNamed | agent/updates/store/store.go:84-102 | A store's trail keeps every named release exactly if it has no wreck; otherwise it does up to the wreck, which is the removal of a named release. |
| Releases.StagePathIsSafe | agent/updates/store/store.go:84-124 | Staging is safe if and only if the version is not named by a pointer or already has a directory. |
| Releases.DiscardIsSafeIff | agent/updates/store/store.go:131-145 | Discarding with removal is safe if and only if the staged version is not a live release. |
| Releases.SwapPathIsSafe | agent/updates/store/store.go:187-197 | Writing `previous` and then `current` is safe at each step for any installed version. |
| Releases.PromotePathIsSafe | agent/updates/store/store.go:153-171 | Every state on the way of a promotion is intact and shields what was named. |
| Releases.PromoteTrailIsTraced | agent/updates/store/store.go:153-171 | A promotion that fails at any of its steps keeps the trail safe. |
| Releases.DiscardTrailIsTraced | agent/updates/store/store.go:131-145 | A discard wrecks the store exactly when it gets to remove a release that a pointer names. |
| Releases.RollbackPathIsSafe | agent/updates/store/store.go:202-223 | The same for a rollback, including the moment when both pointers name the same version. |
| Releases.RollbackTwiceIsIdentity | agent/updates/store/store.go:200-223 | With both pointers set, two rollbacks restore both of them and the rest of the disk. |
| Releases.StageOrder | agent/updates/store/store.go:103-124 | Wherever staging is cut off, `staged` never names a directory that is not there, a new directory starts empty, and nothing else has changed. |
| Releases.DiscardOrder | agent/updates/store/store.go:139-144 | The directory goes before the pointer, so no crash forgets a directory that is still there. |
| Releases.PromoteOrder | agent/updates/store/store.go:161-171 | Wherever a promotion is cut off, `current` has moved only if `previous` already names the way back, and `staged` goes last. |
| Releases.RollbackOrder | agent/updates/store/store.go:211-222 | From its first step on a rollback has the previous version active. |
| Releases.StuckDiscardIsSafeIff | agent/updates/manager.go:432-433 | After a promotion stuck at its last step, discarding is safe if and only if the removal does not get done; if it does, the active release is gone. |
| Releases.StuckDiscardWrecks | agent/updates/manager.go:432-433 | From any intact disk and for any version not named there: staging it, swapping the pointers, failing at the unlink and discarding is a run of the protocol that loses a named release at its last step. |
| Releases.StuckDiscardWitness | agent/updates/manager.go:432-433 | The instance "b" over the active "a". |
| Releases.ThinningIsSafe | agent/updates/store/store.go:261-276 | Deleting any unreferenced releases keeps the disk intact and every named release untouched. |
| Releases.PruneTwice | agent/updates/store/store.go:253-295 | Prune(a) then Prune(b) is Prune(min(a, b)), whatever is installed. |
| Releases.PruneKeepsCount | agent/updates/store/store.go:249-252 | Exactly min(max(0, retain), others) of the releases no pointer names survive, and no greater one is deleted while a smaller one stays. |
| Releases.PruneExactly | agent/updates/store/store.go:253-295 | A release survives exactly if `current`, `previous` or `staged` names it or fewer than `retain` unnamed ones sort after it; what survives is untouched. |
| Releases.OverlayWrites | agent/updates/manager.go:420 | Of each file name the last one written counts. |
| Releases.OverlayKeeps | agent/updates/manager.go:420 | Every other file of the directory stays as it was, and there are no more. |
| Releases.RankGrows | agent/updates/store/store.go:278-292 | A lexically smaller release has strictly more releases above it, so the survivors are well defined. |
| Store.GoneIsDoomed | agent/updates/store/store.go:278-293 | The backwards walk over the sorted listing deletes only what lies beyond the retained ones, and once finished all of it. |
| Store.GoneMembers | agent/updates/store/store.go:281-292 | The walk deletes a release exactly when it is unreferenced, already passed, and `retain` unreferenced ones came before it. |
| Store.CountIsSize | agent/updates/store/store.go:280-289 | The walk's counter is the number of unreferenced releases passed so far. |
| Store.Store.Step | agent/updates/store/atomic.go:43-75 | A file-system step happens entirely or not at all. |
| Store.Store.Crash | agent/updates/store/store.go:147-152 | A crash leaves the disk at any state it went through since a given moment; soundness survives, and a wreck later than that moment never happened. |
| Store.Store.BootstrapCurrent | agent/updates/store/store.go:65-75 | Sets `current` only when unset, records the version as bare if it has no directory, never touches tracked state. |
| Store.Store.Stage | agent/updates/store/store.go:103-125 | Refuses exactly the active version and the rollback target; otherwise creates or keeps the directory and points `staged` at it. |
| Store.Store.Extract | agent/updates/manager.go:420-426 | Writes into the one directory only; success means the artifact's files overlay what was there. |
| Store.Store.DiscardStaged | agent/updates/store/store.go:131-145 | Removes the staged release and then its pointer, touching nothing else; it wrecks the store exactly when the removed release is live. |
| Store.Store.Promote | agent/updates/store/store.go:153-172 | Old current becomes previous, staged becomes current, `staged` is cleared; a failure leaves `current` alone unless only the final unlink failed. |
| Store.Store.PromoteVersion | agent/updates/store/store.go:180-198 | Activates an installed version by swapping pointers, refuses exactly what is not installed, does nothing when already active. |
| Store.Store.RollbackToPrevious | agent/updates/store/store.go:202-223 | Swaps both pointers, fails exactly when there is no previous, and stays sound at every step. |
| Store.Store.InstalledVersions | agent/updates/store/store.go:228-247 | The directories present, as the one strictly increasing list of them. |
| Store.Store.RemoveBeyond | agent/updates/store/store.go:280-293 | The loop of Prune deletes exactly the set GoneFrom describes, step by step and safely. |
| Store.Store.Prune | agent/updates/store/store.go:253-295 | Leaves the referenced releases and the max(0, retain) lexically greatest others; a failed prune has deleted only releases beyond those. |
| Pointers.TrimTrailingNewline | agent/updates/store/atomic.go:93-98 | The slice-shrinking loop leaves the longest prefix that does not end in a line break. |
| Pointers.FilePointerRoundTrip | agent/updates/store/atomic.go:33-41 | A text pointer reads back as what was written if and only if the version does not end in a line break. |
| SemVer.CompareIsTotalPreorder | agent/version/semver.go:62-94 | On versions that parse, comparison is a total preorder whose equivalence is equality of (major, minor, patch, prerelease). |
| SemVer.CompareExactly | agent/version/semver.go:71-94 | On versions that parse: by major, minor, patch, then a prerelease before its release, then prereleases bytewise. |
| SemVer.CompareFallsBack | agent/version/semver.go:43-58 | Strings that do not both parse are equal or ordered bytewise, and the strict comparison refuses them. |
| SemVer.CompareGoesUp | agent/version/semver.go:43-58 | Two upgrades in a row are an upgrade. |
| SemVer.CompareIsTransitiveExactly | agent/version/semver.go:43-58 | For all three strings: transitivity fails exactly when one alone does not parse and lies bytewise between the other two against their order, ties included at the ends of the chain. |
| SemVer.CycleExactly | agent/version/semver.go:43-58 | Three strings form a strict cycle exactly when one is misplaced like that between two unequal versions. |
| SemVer.TieIsNotTransitive | agent/version/semver.go:43-58 | Two versions apart only in build metadata break transitivity without a cycle. |
| SemVer.FallbackIsCyclic | agent/version/semver.go:43-58 | With one unparsable string, three strings form a strict cycle. |
| SemVer.BuildMetadataIsIgnored | agent/version/semver.go:14-32 | Appending build metadata to a version changes nothing the parser reports (SemVer 2.0.0, section 10) if and only if the version does not end in a blank. |
| SemVer.PrintedVersionParses | agent/version/semver.go:22-32 | A printed major.minor.patch parses back to its three numbers. |
| SemVer.ParseReads | agent/version/semver.go:14-32 | Everything of the form major.minor.patch[-prerelease][+build], between any blanks, parses to its three saturated numbers and its prerelease. |
| SemVer.ParseSplits | agent/version/semver.go:14-32 | Conversely, whatever parses is of that form. |
| SemVer.ParseIgnoresBlanks | agent/version/semver.go:23-25 | A version without the blanks around it, or only after it, parses as before. |
| SemVer.OperatorMeans | agent/version/semver.go:117-148 | What each of the six range operators asks of a version, blanks and all. |
| SemVer.ExactMeans | agent/version/semver.go:145-147 | A range without an operator is met by exactly the versions that parse to the same. |
| SemVer.OnlyVersionsSatisfy | agent/version/semver.go:117-131 | What is no version meets the blank range and "*" only, which everything meets. |
| SemVer.RangesAreConvex | agent/version/semver.go:117-148 | No range has a hole: between two members every version is a member. |
| SemVer.RangesRespectEquality | agent/version/semver.go:117-148 | Versions that parse alike satisfy the same ranges. |
| Matrix.LookupIsFirstMatch | agent/version/compatibility.go:67-81 | The answer is that of the first row that names exactly this core version and this adapter and whose range, if any, takes the version; without one it is UNKNOWN. |
| Matrix.LookupNeverGuesses | agent/version/compatibility.go:63-66 | An answer other than UNKNOWN comes from a row naming exactly that core version and adapter, with a range that takes the version. |
| Matrix.EntriesForCore | agent/version/compatibility.go:85-93 | Collects the rows of one core version in order. |
| Matrix.ForCoreMembers | agent/version/compatibility.go:83-84 | Those are exactly the rows naming that core version. |
| Matrix.BestRowIsFirstBest | agent/version/compatibility.go:95-98 | None exactly when no row for the core version names an adapter with a usable status; otherwise SUPPORTED before PARTIAL before EXPERIMENTAL, and the first among equals. |
| Matrix.BestRowForCore | agent/version/compatibility.go:85-98 | Looking only at the rows of the core version makes no difference to the choice. |
| Matrix.BestAdapterFor | agent/version/compatibility.go:99-116 | The loop over the rows of the core version, with best and bestRank, makes exactly that choice among all rows. |
| Manifest.DecodeInvertsPayload | agent/updates/manifest/manifest.go:141-184 | An independent decoder recovers a NUL-free manifest from its payload, signatures aside, nil notes apart from empty ones. |
| Manifest.PayloadIsInjective | agent/updates/manifest/manifest.go:125-140 | Payloads of NUL-free manifests are equal if and only if the manifests are, signatures aside. |
| Manifest.NulBreaksInjectivity | agent/updates/manifest/manifest.go:149-152 | For every manifest there are two variants with NULs in a string that differ and share a payload. |
| Manifest.SplitInvertsEncode | agent/updates/manifest/manifest.go:149-152 | NUL-terminated fields split back into themselves. |
| Manifest.DecodeComponentsInverts | agent/updates/manifest/manifest.go:163-182 | Count prefixes and presence markers make the component section self-delimiting. |
| Manifest.CanonicalPayload | agent/updates/manifest/manifest.go:141-184 | The buffer the closures build is the name-sorted encoding, whatever order the map yields. |
| Manifest.HeaderEncoding | agent/updates/manifest/manifest.go:159-162 | The bytes the header contributes, field by field. |
| Manifest.ComponentEncoding | agent/updates/manifest/manifest.go:163-182 | The bytes one component contributes, with the marker for release notes. |
| Manifest.NoteEncoding | agent/updates/manifest/manifest.go:171-181 | The bytes release notes contribute: their date, three lists, three requirements. |
| Manifest.ListEncoding | agent/updates/manifest/manifest.go:153-158 | The bytes of a list: its length, then its entries. |
| Manifest.WriteComponent | agent/updates/manifest/manifest.go:163-182 | One component appends exactly its fields to the buffer. |
| Lex.SortedUnique | agent/updates/manifest/manifest.go:142-146 | A set of names has one sorted listing, so iteration order cannot show in the payload. |
| Decimal.IntRoundTrip | agent/updates/bootguard.go:136-150 | Itoa then Atoi is the identity on 64-bit integers, and printed integers hold no NUL. |
| Decimal.AtoiExactly | agent/updates/bootguard.go:136-150 | Optionally signed digits read as their value brought into the 64-bit range; all else reads as 0. |
| Policy.KeysDoNotCollide | agent/updates/policy.go:44-182 | No component or channel name makes one setting's key equal to another's. |
| Policy.SettingsStore.Set | agent/updates/policy.go:117-120 | A write replaces one key or fails and changes nothing. |
| Policy.HistoryStore.Insert | agent/updates/manager.go:364-375 | An insert appends one row and returns its id, or fails and changes nothing. |
| Gates.FetchVerified | agent/updates/manager.go:86-102 | A manifest is handed on exactly when it is well-formed, carries a valid signature and is not older than the last one seen on its channel. |
| Gates.FetchExactly | agent/updates/manager.go:86-102 | When a served manifest is acted on, in terms of its own fields, its signature and the stored date, and which fault is reported otherwise. |
| Gates.CheckPredictsInstall | agent/updates/manager.go:133-214 | What Check reports available and unblocked, and is not the rollback target, passes every gate of a manual, unlocked install, for the version reported. |
| Gates.BlockedMeansGateFails | agent/updates/manager.go:277-358 | What Check reports blocked gets past the gates with no options at all. |
| Gates.InstallableIsReported | agent/updates/manager.go:133-214 | Conversely, what passes the gates without a downgrade is reported unblocked and compatible, and available unless it compares equal to the current version. |
| Runs.CheckThenInstall | agent/updates/manager.go:277-379 | Check followed by Install: an available, unblocked update gets its "started" row unless that insert fails, and exactly one more if settings and history writes succeed, whatever happens on disk; a blocked one fails and leaves store, history and settings alone. |
| Manager.Manager.Check | agent/updates/manager.go:133-214 | The result filled field by field is the function CheckOf of the state; nothing is written. |
| Gates.CheckExactly | agent/updates/manager.go:133-214 | A report from outside: everything local always, and of a listed update its version, whether it is newer, whether it fits, and the first reason why it is blocked. |
| Manager.Manager.PassGates | agent/updates/manager.go:277-358 | The gates in code order stop an install with exactly the error Gate gives. |
| Manager.Manager.Prepare | agent/updates/manager.go:380-426 | Download to extraction: succeeds with the target staged and unpacked, or leaves both pointers and everything but the target's directory alone and writes one failure row; which error, also when a directory step fails. |
| Manager.Unpack | agent/updates/manager.go:408-426 | Staging and extracting, with the best-effort cleanup: the target unpacked and staged, or everything but its own directory and `staged` as before. |
| Manager.PromoteOrDiscard | agent/updates/manager.go:432-436 | Promote or discard wrecks the store exactly when it ends with `current` naming a target it has itself removed; when a promotion fails and the removal works, the target is gone. |
| Manager.Manager.PromoteForRestart | agent/updates/manager.go:428-449 | A self-binary install promotes and leaves the marker and the second "started" row for the next boot. |
| Manager.Manager.StartOrRevert | agent/updates/manager.go:463-489 | After the swap: committed with the date recorded and pruned, a failed prune being ignored, or pointers swapped back, with the matching row. |
| Manager.Manager.ActivateNow | agent/updates/manager.go:451-490 | The synchronous part ends committed, rolled back or given up, each with its result, settings and row, and never wrecks the store; failed cleanups and prunes do not matter. |
| Manager.Manager.Activate | agent/updates/manager.go:428-490 | Both ways on from an unpacked target end in one of the outcomes above, and only the self-binary one can wreck the store. |
| Manager.Manager.RollbackAndRestart | agent/updates/manager.go:496-501 | Reverts the pointers when there is a previous version; never leaves anything but the old or the previous version current. |
| Manager.Manager.RollbackForRestart | agent/updates/rollback.go:34-50 | A self-binary rollback swaps both pointers, writes its one row and waits for the restart. |
| Manager.Manager.SwapBack | agent/updates/rollback.go:64-70 | Undoing a rollback of a disk with both pointers set leaves that disk. |
| Manager.InstallIsAllOrNothing | agent/updates/manager.go:360-490 | Success means (current, previous) = (target, old current) with the target unpacked; any error means `current` is as before; the old current's directory is never touched, even if giving up or pruning stopped halfway. |
| Manager.ResultExactly | agent/updates/manager.go:380-489 | Which fault an install reports when the file system works, and exactly when it succeeds. |
| Manager.RowsExactly | agent/updates/manager.go:360-378 | The "started" row and the row that tells how it ended, with all their fields. |
| Manager.SettingsExactly | agent/updates/manager.go:439-476 | A success records the manifest's date, a self-binary one also leaves the marker naming its row; a failure changes nothing, and neither touches any other setting. |
| Manager.UnpackedExactly | agent/updates/manager.go:408-426 | The target holds the artifact's files, each as written last, over what was in its directory. |
| Manager.GivenUpExactly | agent/updates/manager.go:413-426 | An install that gives up leaves no target, nothing staged, and everything else as it was. |
| Manager.CommitKeepsFew | agent/updates/manager.go:474 | After a commit at most `retain` releases stay besides the two that the pointers name. |
| Manager.OutcomeIsAllOrNothing | agent/updates/manager.go:360-490 | The same of an install's whole result: one outcome out of two, and exactly one more row after the "started" one, which names the target. |
| Runs.InstallOrNothing | agent/updates/manager.go:277-490 | An install over a current version, with settings, history and pointer writes succeeding and directory steps failing at will, is refused without a trace, or ends in (target, old current), or ends in an error with `current` as it was; two rows or none. |
| Gates.Gate | agent/updates/manager.go:277-358 | What the gates let through is for a known component and is neither the active version nor the rollback target, so staging never refuses it. |
| Gates.GateExactly | agent/updates/manager.go:277-358 | Lock, window, channel, manifest and listing from outside: each refusal exactly when its reason holds and no earlier one does; an offered update is then judged by OfferExactly. |
| Gates.OfferExactly | agent/updates/manager.go:310-358 | Each refusal of an offered update exactly when its reason holds and no earlier one does: pin, same version, older, rollback target, release notes, unknown component, matrix; otherwise it passes. |
| Gates.IncompatibleExactly | agent/updates/manifest/verify.go:152-167 | An update is incompatible exactly if a running version is known and misses what the release notes ask of it. |
| Gates.BlockedByMatrixExactly | agent/updates/compatibility.go:16-28 | The matrix stops an update exactly if it is of an adapter, the running core is known, and its answer is none of the three usable ones. |
| Manager.Manager.Install | agent/updates/manager.go:277-490 | If settings, history and pointer writes succeed the whole result (disk, settings, two rows, and which error) is InstallOutcome, and CleanOutcome when directory steps succeed too; two rows need only settings and history; a success has recorded its manifest's date, whatever else failed; `current` is the old or the target version, only the channel's date and the component's marker may change, and only a self-binary install can wreck the store. |
| Manager.Manager.Rollback | agent/updates/rollback.go:18-84 | Pointers swap on success; a target that fails its health check is swapped back so that both pointers end as found; one that fails to start stays active. |
| Runs.InstallRun | agent/updates/manifest/verify.go:134-145 | Over any run of synchronous installs without downgrades, each failing or succeeding anywhere, no later reading of `current` is older than an earlier one. |
| Runs.NeverOlder | agent/updates/manifest/verify.go:134-145 | Step-by-step monotonicity is monotonicity between any two readings. |
| Runs.InstallNeverGoesBack | agent/updates/manager.go:329-331 | Staying on `current` or moving to what the gates let through never goes to an older version. |
| Runs.FetchRun | agent/updates/manifest/verify.go:176-198 | Over any interleaving of whole Manager installs and QRX Core updates, on any stores, whatever fails: no channel's last-seen instant ever decreases or is lost, and once a call has succeeded on a manifest every well-formed, signed, older one of its channel is refused as a replay from then on. |
| Runs.BookkeepingMovesForward | agent/updates/manager.go:445-476 | Recording the date of a manifest that passed the replay check moves that channel's instant forward and no other. |
| SelfUpdate.CourseOfBoots | agent/updates/bootguard.go:80-134 | Closed form of a self-update's whole course over any sequence of boots. |
| SelfUpdate.CrashLoopBound | agent/updates/bootguard.go:69-79 | Boots that never get through leave the pointers alone for exactly the budget; the next restores the previous version and clears marker and counter; nothing later moves them. |
| SelfUpdate.FirstBootThroughDecides | agent/updates/selfupdate.go:66-109 | The first boot that gets through within the budget settles on the target if healthy, on the previous version otherwise. |
| SelfUpdate.SettledStaysPut | agent/cmd/agentd/main.go:117-131 | Without a marker no boot changes anything. |
| SelfUpdate.CounterGoesWithMarker | agent/updates/bootguard.go:152-164 | No counter outlives its marker. |
| SelfUpdate.InstallArms | agent/updates/manager.go:431-449 | A successful self-binary install leaves exactly the state those laws start from. |
| SelfUpdate.BootGuard.EffectiveMaxAttempts | agent/updates/bootguard.go:44-49 | The budget is the configured one when that is positive, and three otherwise. |
| SelfUpdate.BootGuard.PendingComponents | agent/updates/bootguard.go:55-67 | Finds every component with a marker, once each. |
| SelfUpdate.BootGuard.RecordAttempt | agent/updates/bootguard.go:136-150 | The stored counter goes up by one, from a missing one to 1. |
| SelfUpdate.BootGuard.CheckAndRecordAttempt | agent/updates/bootguard.go:80-134 | Unless it reports an error: counts the boot; past the budget swaps back, writes the row and forgets the update, or keeps marker and counter when there is nothing to go back to. A counter that could not be deleted is all a failure can leave. |
| SelfUpdate.ResumeSelfUpdate | agent/updates/selfupdate.go:66-109 | The deferred verdict: commit and prune, or swap back; one row with the versions of the marker; the marker cleared and the counter too, unless its deletion failed; a failed prune does not matter. |
| SelfUpdate.StartProcess | agent/cmd/agentd/main.go:117-131 | One process start does what BootStep says. |
| SelfUpdate.BootRun | agent/cmd/agentd/main.go:273-288 | Any run of process starts does what Boots says. |
| SelfUpdate.UpdateThenBoot | agent/updates/bootguard.go:22-40 | An install followed by any boots ends on the target or on the old version exactly as the crash-loop bound and the first health check decide; the marker and the counter are gone once that is decided, and until then the marker is there and the counter is the number of boots. |
| QrxCore.SwitchSafetyExactly | agent/updates/qrx_core.go:138-151 | Over all five judgements (blockchain data, configuration, wallet, adapter, network): safe exactly if each says compatible or, with the override, none says incompatible; an incompatibility is reported exactly if there is one. |
| QrxCore.ActivationLands | agent/updates/qrx_core.go:184-198 | Both ways to a new version end on it with the old one installed, unchanged and recorded as previous. |
| QrxCore.FallbackAndSwitchBack | agent/updates/qrx_core.go:376-401 | The fallback ends on exactly the old version; a commit keeps it through the prune, finished or not, so that switching back lands. |
| QrxCore.UpdateFallsBack | agent/updates/qrx_core.go:265-401 | An update from an installed version: failed validation ends on it, unchanged and started last; success ends on (target, old version) and can be switched back; a failed stop leaves the target current; anything earlier leaves both pointers alone. |
| QrxCore.CoreManager.RollbackBinary | agent/updates/qrx_core.go:376-401 | Falls back when there is something to fall back to, starts it last, and records the rollback. |
| QrxCore.CoreManager.ActivateAndValidate | agent/updates/qrx_core.go:321-367 | Stop, activate, start, validate: exact disk (up to an unfinished prune), last started version, row and error of each exit. |
| QrxCore.CoreManager.SwitchVersion | agent/updates/qrx_core.go:171-191 | A refused switch touches nothing; once stopped, it ends on the target or back on the old version, with the version started last; success means stopped, started and validated. |
| QrxCore.CoreManager.SwitchGateExactly | agent/updates/qrx_core.go:171-183 | A switch goes ahead exactly with a safe profile of the target, which is installed; each refusal in order. |
| QrxCore.CoreManager.PassUpdateGates | agent/updates/qrx_core.go:211-263 | An update is refused in code order with exactly the error UpdateGate gives. |
| QrxCore.CoreManager.UpdateGateExactly | agent/updates/qrx_core.go:211-263 | An update goes ahead exactly with a safe profile that describes the very version on offer, unless that is an unconfirmed downgrade; each refusal in order. |
| QrxCore.CoreManager.FetchAndPromote | agent/updates/qrx_core.go:265-308 | Either the target is unpacked and current, or the failure is returned, both pointers are as before and at most the target's own directory is left behind. |
| QrxCore.CoreManager.Update | agent/updates/qrx_core.go:211-314 | The whole update, exit by exit with its error, as UpdateOutcome says; once the target is current its manifest's date is recorded; whatever fails, `current` is the old or the new version. |
| QrxCore.UpdateErrorExactly | agent/updates/qrx_core.go:265-367 | Which fault an update reports when the file system works, and that it succeeds exactly if all four health signals are good. |
| QrxCore.FetchedLands | agent/updates/qrx_core.go:289-305 | What was fetched is current, holds the binary, and keeps the old version as the way back. |
| Runs.SwitchThenBack | agent/updates/qrx_core.go:171-191 | From an installed version: a switch whose validation fails ends on it and started again; after a successful one, even with an unfinished prune, switching back is never refused as not installed and restores it. |
| Runs.UpdateOrFallBack | agent/updates/qrx_core.go:211-314 | The method Update from an installed version keeps that guarantee, or is refused by its gates with nothing touched. |
| Registry.Registry.Discover | agent/adapters/registry.go:97-120 | Lists every installed adapter once, in name order, with its own name, version and state. |
| Registry.Registry.DisableIncompatible | agent/adapters/registry.go:139-155 | Afterwards an installed adapter is disabled exactly when the matrix says UNSUPPORTED or UNKNOWN, and the listing returned says so. |
| Registry.Registry.Activate | agent/adapters/registry.go:195-238 | Success makes the adapter active and the old one previous; a failure leaves both alone, and then only the old adapter is on exactly when the best-effort steps that this error calls for worked. |
| Registry.ActivationExactly | agent/adapters/registry.go:195-238 | Each failure exactly when its step fails and no earlier one does; success exactly when all go well. |
| Registry.Registry.Rollback | agent/adapters/registry.go:242-257 | Swaps active and previous, or fails and leaves them alone, with only the active one on exactly as for Activate. |
| Registry.Registry.RollbackTwice | agent/adapters/registry.go:240-257 | Two successful rollbacks restore (active, previous). |
| Registry.Registry.ActivateBest | agent/adapters/registry.go:163-177 | The outcome, success or which error, is the one Selection computes from matrix, adapters and hooks beforehand, and the status is the best row's; a failure leaves (active, previous) alone. |
| Registry.Registry.FindReported | agent/adapters/registry.go:178-187 | Finds an entry exactly when some installed adapter reports the name, and then the first in name order. |
| Registry.SelectionUsable | agent/adapters/registry.go:139-175 | What selection picks is never rejected, and usable exactly when the text that applies to it is a known one. |
| Registry.SelectionExactly | agent/adapters/registry.go:163-177 | An adapter is picked exactly if the best row names it, it is installed, the row that applies to its own version does not reject it, and its hooks do their part. |
| Registry.KnownTextsAreSafe | agent/version/compatibility.go:12-19 | A matrix of known texts never lets an unusable adapter through. |
| Registry.Registry.SelectAutomatic | agent/adapters/registry.go:163-188 | Success, error, (active, previous) and the reported status as functions of the state before: a success is usable exactly when the text that applies to the best row's adapter is known; a failure moves the active adapter exactly when the activation works and no installed adapter reports the chosen name. |
| Registry.RecognizedRowsGiveRecognizedStatus | agent/version/compatibility.go:12-19 | A matrix of known status texts gives only known statuses. |
| Registry.UnknownTextSlipsThrough | agent/adapters/registry.go:145-151 | With adapters that work, selection picks an unusable one if and only if the text that applies to the best row's adapter is unknown. |
| Registry.RunWithUnknownText | agent/adapters/registry.go:145-151 | A whole run that ends successfully on an unusable adapter. |
| Registry.RunWithHiddenName | agent/adapters/registry.go:178-187 | A whole run that fails and yet has moved the active adapter. |
| Guardian.ClassifyIsWorstJustified | agent/guardian/guardian.go:114-132 | Whatever the order of the thresholds, the verdict is the worst one the signals justify. |
| Guardian.ClassifyExactly | agent/guardian/guardian.go:114-132 | Each verdict in terms of the signals; a node never polled successfully is OFFLINE. |
| Guardian.ClassifyOnlyWorsens | agent/guardian/guardian.go:118-130 | Waiting without a successful poll never improves the verdict. |
| Guardian.BudgetHoldsInEveryWindow | agent/guardian/guardian.go:40-46 | Spacing of every max + 1 restarts means no half-open window holds more than max(0, MaxAutoRestarts). |
| Guardian.EveryWindowHolds | agent/guardian/guardian.go:40-46 | The same for the set of restarts in any window. |
| Guardian.RestartStaysWithinBudget | agent/guardian/guardian.go:145-158 | A restart that passes the check keeps the whole log within budget and cooldown. |
| Guardian.MayRestartExactly | agent/guardian/guardian.go:138-155 | A restart is allowed exactly if none came less than MinRestartInterval before it and fewer than MaxAutoRestarts lie in the window that ends with it. |
| Guardian.PrunedTail | agent/guardian/guardian.go:145-152 | What pruning keeps is again the log's tail and as many as the full log has in the window, and all that was dropped is out of it. |
| Guardian.AfterAll | agent/guardian/guardian.go:146-152 | Entries all after the cutoff are all kept, behind whatever is kept of what precedes them. |
| Guardian.Compact | agent/guardian/guardian.go:146-152 | The in-place filter keeps exactly the entries after the cutoff, in order. |
| Guardian.Guardian.AttemptRestart | agent/guardian/guardian.go:138-164 | Restarts exactly when the full, never-pruned log allows it: no restart too close, and fewer than the maximum in the window. |
| Guardian.Guardian.Evaluate | agent/guardian/guardian.go:91-112 | Restarts only on entering UNHEALTHY or OFFLINE and within budget; the state is the classification. |
| Guardian.Ticks | agent/guardian/guardian.go:91-164 | Over any run with a clock that never goes back: every window of length RestartWindow > 0 holds at most max(0, MaxAutoRestarts) restarts, and any two are MinRestartInterval apart. |
| Alerts.EdgesAlternate | agent/alerts/alerts.go:127-130 | The edges of a firing sequence strictly alternate and end on its last value. |
| Alerts.CreationsAreRises | agent/alerts/alerts.go:139-148 | Creations are as many as rising edges. |
| Alerts.ExplainedIsStrict | agent/alerts/alerts.go:127-160 | Events that are the edges of the firings alternate strictly, and rows are as many as created events. |
| Alerts.TurnExplains | agent/alerts/alerts.go:139-158 | One rule's turn keeps table and events in step with the firings of every rule. |
| Alerts.ResolvedCounts | agent/storage/alerts.go:68-75 | Resolving a rule closes all its open alerts and no other rule's, and loses no row. |
| Alerts.ResolvedExactly | agent/storage/alerts.go:68-75 | Each open row of the rule is marked resolved with the time; every other row stays as it is. |
| Alerts.AlertStore.Create | agent/storage/alerts.go:24-42 | Appends one unresolved alert with the next id, created now if it carries no creation time; returns the caller's alert with that id and time. |
| Alerts.AlertStore.OpenByRule | agent/storage/alerts.go:44-66 | Finds nothing exactly when the rule has no open alert; otherwise the one whose creation time sorts last, as text. |
| Alerts.Engine.Evaluate | agent/alerts/alerts.go:131-161 | Every rule takes one turn on the snapshot; each has at most one open alert, open exactly when it fired last; every event published tells of a rule's verdict on this snapshot, with its message and the time. |
| Alerts.Run | agent/alerts/alerts.go:131-161 | Over any snapshots: one open alert exactly when the rule fired last, one row per created event, and created and resolved events strictly alternate. |
| Alerts.AfterFires | agent/alerts/alerts.go:133-134 | The firings are the rule's own verdicts on the snapshots, in order. |
| Bus.EveryInterleavingIsSafe | agent/events/bus.go:50-103 | In every interleaving, received plus buffered is a subsequence, in order, of what was sent while subscribed, and no possible step sends on a closed channel or closes one twice. |
| Bus.LostExactlyWhenFull | agent/events/bus.go:53-60 | In every interleaving, a subscriber loses exactly the events that found its buffer full: what was sent its way is received, still buffered, or counted as lost, and without losses all of it is there in order. |
| Bus.PublicationReachesAll | agent/events/bus.go:50-61 | In every interleaving, a publication that ends has sent its event to every subscriber it found when it began. |
| Bus.StepKeepsInv | agent/events/bus.go:50-103 | Each step of publishers, subscribers and readers keeps that invariant. |
| Bus.StepCannotPanic | agent/events/bus.go:50-61 | A publisher holding the read lock only reaches open channels. |
| Bus.StepOnlyGrows | agent/events/bus.go:87-93 | Records only grow, only subscribed channels are sent to, and only a new largest id appears. |
| Bus.IdsAreNeverReused | agent/events/bus.go:87-93 | Ids created later are larger than every id known before. |
| Bus.PublishFollows | agent/events/bus.go:50-61 | The begin, send and end steps of one publication, the subscribers in any order, are a run that ends where sending to each of them in turn does. |
| Bus.CapHolds | agent/events/bus.go:77-85 | A successful TrySubscribe under a cap leaves at most that many subscribers. |
| Bus.SubsequenceMembers | agent/events/bus.go:53-60 | Nothing is invented or duplicated: a subsequence's events are among those sent. |
| Bus.Bus.Publish | agent/events/bus.go:50-61 | Each subscriber's buffer takes the event exactly if it has room, and nobody else sees it; the call is a run of the publication steps, one send for each subscriber. |
| Bus.Bus.TrySubscribe | agent/events/bus.go:77-85 | Refuses exactly at the cap; otherwise a fresh id. |
| Bus.Bus.Unsubscribe | agent/events/bus.go:96-103 | Closes the channel once and forgets the subscriber; unknown ids are ignored. |
| Bus.Bus.SubscriberCount | agent/events/bus.go:107-111 | Counts exactly the channels that are open. |
| Itoa.FillDigits | agent/qrx/fields.go:119-125 | The loop never leaves the 20-byte buffer and leaves room for a sign; the tail holds the digits. |
| Itoa.DigitsFit | agent/qrx/fields.go:119-125 | A number below 10^k has at most k digits. |
| Itoa.Itoa | agent/qrx/fields.go:111-131 | The result reads back as n, without leading zeros, if and only if n is not the least 64-bit integer, whose result is a lone sign. |

## Left out

- Store.Store.Step: removing a directory tree is one step; a tree left half removed is not modelled, and neither are temporary files left behind by an interrupted pointer write.
- Runs.AnyRun: both managers act on one store here; a call of the boot guard is either whole or cut between disk steps, with the settings then arbitrary.
- Runs.InstallRun: versions offered must parse, because the order is cyclic otherwise; operator rollbacks and confirmed downgrades are excluded by the statement itself.
- Runs.FetchRun: the recorded dates must be readable at the start, as every date the code records is.
- Manager.InstallIsAllOrNothing: a failed first-ever install has nothing to go back to (agent/updates/store/store.go:207-208), so `current` then keeps the target.
- Manager.Manager.Install: with failed settings, history or pointer writes only the rows, what may change and the store's safety are stated.
- SelfUpdate.BootRun: settings, history and pointer writes succeed (directory steps may fail); the other components' pending markers at the same boot, whose forced rollback also exits the process, are not modelled; the counter must stay below the largest 64-bit integer.
- SelfUpdate.StartProcess: stands for a component resumed at boot (the agent or the active adapter); other adapters' counters are not modelled.
- Gates.FetchVerified: signatures are an uninterpreted predicate on manifests and RFC 3339 reading (section 5.6) an uninterpreted function; every source is taken to validate what it parses.
- QrxCore.CoreManager.Update: with failed settings, history or pointer writes only what may change and the store's safety are stated; the stop, start and probe hooks are taken to be configured.
- Alerts.Run: store errors and rules sharing an id are not modelled.
- Guardian.Ticks: times are unbounded nanosecond counts, so the saturation of very long durations is not modelled; concurrent ticks are not either.
- Bus.Bus.Publish: ids are unbounded, so the wrap-around of a 64-bit id is not modelled; in the class one call runs at a time, the interleavings are in the step relation.
- Reads of pointers, settings and history always succeed; only writes fail.
- Installs running at the same time on one store, which the code does not serialise.
- JSON, Ed25519, SHA-256, base64, HTTP, SQL and the file-system library; audit events; error message texts.
- Path joining and the symbolic-link form of a pointer; component and version names are plain strings of Unicode characters rather than bytes.
- Policy setters for channel, pin, lock and window, the scheduled window itself (a boolean input here), and Plan: easy members.
- The default alert rules, alert listing, configuration and schema migrations, dashboard extraction, the command runner and concrete adapters.
- SHA-256 and signature checks on artifacts are one outcome of a download.
