# A verified model of the rgb-lightning-node Bare binding

The `@utexo/rgb-lightning-node-bare` package wraps a native Lightning node for the Bare JavaScript runtime. This project
models the parts of it where a mistake is hard to see in a review, in Dafny, and proves what they are there to guarantee.

**The native handle lifecycle** (`binding.cc`, `index.js`). Node and signer wrappers of several JavaScript environments
share one linked list under a mutex. Native shutdown may fail, finalizers may come late, twice or never, and libjs runs
teardown callbacks in any order. It is modelled twice:

- `Lifecycle` is a state machine. One step is one section under the lock, one call that leaves the binding, or one access
  to memory only one environment touches; environments interleave at every step, and every result of the native library
  and of libjs is a choice of the run. When the teardown of an environment is over its pointer may be given to a new one,
  with what the old one retained still registered. Memory is explicit: an address can be freed and given out again, and reading or
  freeing memory that is not allocated, or removing a callback that is not pending, is a fault. `LifecycleInvariant`,
  `LifecycleSteps` and `LifecycleLedger` hold the invariant and the accounting of native calls, `LifecycleSafety` lifts
  them to runs, and `LifecycleTheorems` and `LifecycleProgress` state what follows, and `LifecycleCallbacks` which
  teardown callbacks are pending. `LifecycleReuse` has a run that reuses pointer, address and kind of a handle.
- `HandleRegistry.Registry` is the concrete data structure: a singly linked list with a `next` field for each wrapper, the
  counter, the drain loop with its cursor, and the callbacks, with other environments acting whenever the lock is free.
  `HandleOutcomes` has what each operation leaves when nothing interleaves, `DrainInterference` what the drain leaves for
  any actions of the others, and `DrainLaws` what that means for them. `LifecycleAgreement`, `LifecycleDrain` and
  `LifecycleWrap` show that the callbacks, drain included, the finalizers and the wraps of the class have the effect of
  the state machine's operations when nothing interleaves.

`Facade` has the JavaScript classes over one handle, and `LifecycleHost` puts the one for nodes into the state machine.

**Filesystem transactions** (`scripts/stage-android-addons.js`, `scripts/native-distribution.js`,
`scripts/native-overlay.js`). `StageCopies` builds, promotes and restores a directory tree; `StagingPlan` and
`StagingRoundTrip` have the plan of the copies and the ownership check of the output; `Hydrate` installs payloads;
`Overlay` keeps the provenance manifest. Every operation takes its outcome from a function of the moment it is made: it
works, works wrongly, fails half done, or is the last one of the process. The classes record every state the disk has
been in, so a statement about all of them is a statement about stopping anywhere.

**Exact numbers and text** (`json-boundary.js`). `Doubles` defines rounding to the nearest double, ties to even, and
proves that a safe rounded result is exact; `Decimals` and `JsonBoundary` use it for integer tokens and unsigned 64-bit
fields. `Utf16` and `Bip322` have the scanner that counts UTF-8 bytes over UTF-16 code units.

**ELF checks** (`scripts/android-elf.js`, `scripts/android-staging-elf.js`, `tests/android/protection.c`). `ElfLayout`
relates comparisons of section bounds to bytes on pages, `DynamicTable` has both decoders of the dynamic table, and
`ReadOnlySweep` the sweep over the memory map.

**Provenance framing** (`scripts/release-contract.js`). `WrapperHash` has the bytes that are hashed and a parser for them.

These expectations of the source do not hold on every input:

- A failed promotion of `stageCopies` can put a foreign directory in place of the output, if one is there under the name
  reserved for the backup. `StageCopies.RestorationIsExact` says exactly when.
- Replacing an output that `ownedOutput` accepts can delete a file its report does not list: a file in the place of the
  directory of a listed path. `StagingRoundTrip.ReplacementIsExact` says exactly when, and what a run wrote is not
  concerned.
- The report that `stageCopies` writes lists a wrong digest if a copy has the report's own name.
  `StageCopies.DigestsMatchExactly` says exactly when; planned copies have other names.
- The framing of `wrapperSha256` is ambiguous when a name or a content has a NUL; `WrapperHash.ParseRecovers` says exactly
  when it is not. Names with lone surrogates can be written alike (`WrapperHash.LoneSurrogatesCollide`): a name can be
  read back exactly when it is well-formed (`Utf16.WrittenAsItIs`), and is the only one written as it is exactly when it
  is well-formed and has no U+FFFD (`Utf16.WrittenAlone`, and for a stream `WrapperHash.OneFileExactly`).
- An output that is not the script's own passes `ownedOutput` when `fs.existsSync` fails on it, since that reads as
  absent; `StagingPlan.CheckOwned` says exactly when.

`dafny verify dfyconfig.toml` checks the project.

## Model

| member | source | states |
|---|---|---|
| LifecycleSafety.StepSafe | binding.cc:185-434 | One step of any environment, with any result of the native library and libjs, faults nowhere, keeps the whole invariant and leaves every other environment's view as it was |
| LifecycleSafety.NoRunFaults | binding.cc:185-434 | No interleaving of any number of environments ever reads or frees a freed wrapper, or removes a teardown callback that is not pending |
| LifecycleTheorems.WrappersAreRegistered | binding.cc:37-49 | Between operations the allocated wrappers of an environment are exactly its registered entries, each flagged one has its callback pending, and a pending callback with a registered id belongs to that entry |
| LifecycleCallbacks.CallbacksAreEntries | binding.cc:215-227 | In every reachable state the callbacks pending for an environment that is not inside the binding and not closing are exactly those of its registered, flagged entries: no finalizer and no failed wrap leaves one behind |
| LifecycleTheorems.ExternalsAreOwned | binding.cc:67-73 | Every handle JavaScript can reach in an environment that is not closing passes the ownership test and names its own generation; no other handle of an environment that is not closing has its address |
| LifecycleTheorems.EnvironmentsAreIsolated | binding.cc:293-322 | A step of one environment changes no wrapper, entry, callback, handle or progress of another |
| LifecycleTheorems.IdentitiesAreFresh | binding.cc:37-49 | Identities are non-zero, pairwise distinct over the run, issued in increasing order and strictly decreasing along the list |
| LifecycleTheorems.ExhaustedForever | binding.cc:39-41 | Once the counter has wrapped to 0, no run registers anything again |
| LifecycleTheorems.DeadStaysDead | binding.cc:39-41 | An issued identity without an entry never gets one again |
| LifecycleTheorems.LateFinalizer | binding.cc:49-57 | A late or repeated finalizer of a dead generation changes nothing, even where its address, its kind and its environment, live or opened after a teardown at the same pointer, are in use again |
| LifecycleTheorems.StaleCallback | binding.cc:316-319 | A callback that the drain left behind for an unregistered identity only disappears |
| LifecycleTheorems.StoppedOnce | binding.cc:185-200 | After a shutdown of a wrapped node that returned Ok there is neither another shutdown of it nor another call to it |
| LifecycleTheorems.FreedOnce | binding.cc:185-227 | A wrapped object is freed at most once, by the function of its kind, a node only after a shutdown that returned Ok, and nothing about it follows |
| LifecycleTheorems.NothingIsForgotten | binding.cc:185-200 | Until a wrapped object has been freed, the wrapper it was given holds it, unfreed, and stays registered between operations |
| LifecycleTheorems.NodesStopBeforeSigners | binding.cc:356-379 | Along every run, each node stop made by an environment's teardown precedes each signer stop made by it: a later one belongs to another environment opened at the same pointer in between |
| LifecycleTheorems.NeverRevokedUnderNodes | binding.cc:356-365 | When teardown stops a signer, no node wrapper of its environment is left, nor one retained from an earlier environment at the same pointer |
| LifecycleTheorems.TeardownLeavesNothing | binding.cc:202-213 | Once the callbacks of a closing environment have run, in any order and after any history, and no teardown stop of it failed, none of its wrappers or entries is left and each object it wrapped was freed exactly once; if a signer was revoked, no node of an earlier environment at its pointer is left either |
| LifecycleTheorems.FailureKeepsOwnership | binding.cc:356-379 | An unfreed object is still registered and held, and either its callback is pending or a teardown stop failed: one of the environment itself, or of the earlier one it is left over from |
| LifecycleTheorems.ReopenedFindsLeftovers | binding.cc:208-209 | A pointer given to a new environment brings along only what a failed stop retained: registered, without a callback and out of reach of JavaScript |
| LifecycleReuse.EverythingReused | scripts/fixtures/native-lifecycle.cc:127-136 | From any environment that holds nothing there is a run in which a signer is wrapped and torn down, and a new environment at the same pointer has a live signer at the same address while the old generation is dead |
| LifecycleProgress.OthersDoNotDelay | binding.cc:293-322 | Steps of other environments leave the number of steps an operation can still take as it is |
| LifecycleProgress.OperationsTerminate | binding.cc:298-322 | Each step of an operation lowers a rank; for the drain it counts the environment's nodes above the cursor |
| LifecycleProgress.TeardownTerminates | binding.cc:293-322 | In a closing environment each callback that runs leaves fewer pending and no step adds one |
| LifecycleProgress.RetainedCanBeFinalized | binding.cc:215-227 | A registered handle that teardown retained is freed exactly once, unregistered and released by a later finalizer, without stopping a signer; of the pending callbacks just the one of that handle is removed |
| HandleRegistry.Registry.RegisterHandle | binding.cc:37-47 | Pushes the entry with the next identity, or refuses when the counter is 0, and wraps the counter with the word |
| HandleRegistry.Registry.FindFinalizerHandle | binding.cc:51-57 | Walking the links finds the entry with that address, generation, environment and kind, and nothing else |
| HandleRegistry.Registry.FindTeardownHandle | binding.cc:59-65 | Walking the links finds the entry with that identity and kind |
| HandleRegistry.Registry.OwnsHandle | binding.cc:67-73 | Ownership is decided by the entry at the address, if there is one |
| HandleRegistry.Registry.UnregisterHandle | binding.cc:81-89 | Splicing through the cursor removes exactly the entry from the list the links represent |
| HandleRegistry.Registry.NextEnvironmentNode | binding.cc:302-309 | One scan under the lock finds the least identity above the cursor among the environment's nodes |
| HandleRegistry.Registry.ShutdownAndFreeSdkNode | binding.cc:185-200 | Stops at most once successfully, frees only after Ok, and keeps the node when the stop failed |
| HandleRegistry.Registry.ShutdownEnvironmentNodes | binding.cc:298-322 | With other environments registering and removing handles between all its locked sections: each node registered on entry is served exactly once in ascending order; exactly the freed ones are gone and the failed ones stay; the result says whether all were freed. State, counter and what the others achieved are a function of the state on entry, the native answers and the others' actions; their entries, and their wrappers whether registered or not, change only by those actions, in their order. When they do nothing, it is the uninterrupted drain |
| HandleRegistry.Registry.SdkNodeTeardown | binding.cc:202-213 | For the entry with that identity: clears its flag, stops and frees as far as that is still to be done, and releases the wrapper exactly when the native node is freed; otherwise nothing changes |
| HandleRegistry.Registry.SdkNodeDestructor | binding.cc:215-227 | Acts only on the generation it was made for; a failed stop keeps the entry and its callback, and a freed node is released and of the callbacks just its own removed, a pending one being flagged in every reachable state |
| HandleRegistry.Registry.SignerDestructor | binding.cc:381-396 | Acts only on the generation it was made for; frees the signer if that has not been done, releases it, removes just its own callback, a pending one being flagged in every reachable state, and revokes nothing |
| HandleRegistry.Registry.SignerTeardown | binding.cc:356-379 | Drains the environment's nodes and only then stops the signer; a node that did not stop keeps the signer registered and unrevoked. The outcome is a function of the state on entry, the native answers and the others' actions between the locked sections, and other environments' entries and wrappers change only by those actions; uninterrupted, it is the function that the state machine agrees with |
| HandleRegistry.Registry.WrapSdkNode | binding.cc:229-268 | Returns an external exactly when malloc, registration, callback and external all succeed; otherwise list, callbacks and memory are as before, the native node was given up, and the counter is as before or, after an attempt to register, its successor, and 0 for good once exhausted |
| HandleRegistry.Registry.WrapSigner | binding.cc:398-434 | The same for a signer, which is freed without being stopped |
| DrainLaws.DrainComesFrom | binding.cc:298-322 | Whatever appears or disappears among the other environments' handles during a drain is the effect of an action of theirs, each of one of its own and in the order of the actions |
| DrainLaws.DrainStrangers | binding.cc:298-322 | After a drain the wrappers of the other environments, registered or not, are those on entry changed by these effects and nothing else |
| DrainLaws.SilentDrain | binding.cc:298-322 | Where the others do nothing, the drain among others is the uninterrupted one |
| HandleRegistry.UnnamedSpared | binding.cc:298-322 | An entry and a wrapper of another environment whose address no action names are as they were |
| LifecycleAgreement.NodeTeardownAgrees | binding.cc:202-213 | From every reachable state, the state machine's steps of a node teardown, uninterrupted, have the effect of the method |
| LifecycleAgreement.FinalizerAgrees | binding.cc:215-227 | From every reachable state, the state machine's steps of a finalizer, uninterrupted, have the effect of the methods |
| LifecycleAgreement.CallsAct | binding.cc:270-285 | In every reachable state, an entry point called on a handle that JavaScript can reach asks the native library for exactly the calls that the flags of the wrapper ask for, and changes neither list nor callbacks |
| LifecycleAgreement.TeardownRevokes | binding.cc:366-379 | After its drain the teardown of a signer asks for its revocation once, and frees it exactly when that succeeds, unless it was freed before |
| LifecycleDrain.SignerTeardownAgrees | binding.cc:298-379 | From every reachable state there is a run of the callback's own steps, with any answers of the native library, that has the effect of the method with its whole drain |
| LifecycleWrap.WrapAgrees | binding.cc:229-268 | From every reachable state in which malloc finds memory, the state machine's steps of a wrap, uninterrupted and with every pattern of failures, have the effect of the methods, and make a reachable handle exactly where they return one |
| LifecycleWrap.WrapWithoutMemory | binding.cc:230-235 | When malloc finds no memory the state machine frees the native object and does nothing else, as the methods do |
| Facade.Binding.SdkNodeShutdown | binding.cc:581-596 | Throws for a freed node or a failed stop, and does nothing for a stopped one |
| Facade.Binding.SdkNodeDestroy | binding.cc:624-645 | Stops if need be and frees; throws exactly when the node is still unfreed |
| Facade.SdkNode.Shutdown | index.js:81-87 | The facade is closed exactly when the native node has been freed; a throw changes nothing, so shutdown can be called again; all calls together stop once and free once |
| Facade.SdkNode.Use | binding.cc:270-285 | Other methods reach the native node only while it is neither stopped nor freed, and throw otherwise or when the native call fails |
| Facade.CallsInOrder | index.js:83-84 | Shutdown followed by destroy makes the native calls of one stop and free |
| Facade.NativeExternalSigner.Bootstrap | index.js:554-557 | Reaches the native signer until destroy, and throws after that or when the native call fails |
| Facade.NativeExternalSigner.Shutdown | index.js:565-570 | Revocation succeeds at most once, is repeated after a failure, and is refused after destroy |
| Facade.NativeExternalSigner.Destroy | index.js:573-578 | Frees the native signer once and never revokes it |
| LifecycleHost.ClosedExactlyWhenFreed | index.js:81-87 | In the state machine, with every interleaving of all environments and the facade as the only caller of its handle: outside shutdown, `_closed` holds exactly when the native node has been freed; then that has happened once, after an Ok stop, and stays so when the handle is collected or the environment torn down; until then the handle passes the ownership test, so that shutdown can be repeated |
| LifecycleHost.HostStepKeeps | binding.cc:67-73 | Every step keeps that, and no step of another environment, nor one of its own outside shutdown, touches the wrapper of a handle that only its facade calls |
| StagingTree.SafeNameStaysBelow | scripts/stage-android-addons.js:156-157 | A name that passes the guard denotes a path below the temporary directory |
| StagingTree.SafeNameExactly | scripts/stage-android-addons.js:156-157 | The guard refuses exactly absolute names and those with two dots alone between separators of either kind, or between one and an end |
| StagingTree.TargetOfMore | scripts/stage-android-addons.js:157 | A name is joined part by part, where empty parts and single dots lead nowhere |
| StageCopies.FileSystem.Stage | scripts/stage-android-addons.js:150-170 | With any operation failing or being the last: the promotion begins, if it does, after every name passed the guard and every source was found to have its digest when it was read again, with the old output and backup in place and the whole new tree beside them, and the output ends where it left it, or as it was without one. If there was no leftover under the name of the backup, in every state, the last one included, the complete old tree is at the output or the backup, or the complete new one at the output, and a throw whose restoration worked or was not needed leaves the output wholly old or wholly new. A return leaves exactly the new tree; its report has the given fields and lists each copy in order with the digest of the file the tree holds for it, except that the report replaces a copy of its own name. Once the temporary directory has been made, every way out tries to remove it unless the process dies; without faults it succeeds |
| StageCopies.FileSystem.PromoteTree | scripts/stage-android-addons.js:163-167 | The renames, and existence checks that may wrongly say no, pass through exactly the states of the promotion function |
| StageCopies.PromotionIntact | scripts/stage-android-addons.js:163-167 | In every state of a promotion, with any faults of its five operations, one of the two trees is complete where it should be |
| StageCopies.PromotionSettles | scripts/stage-android-addons.js:163-167 | What success, restoration and failed restoration leave at the output and the backup |
| StageCopies.PromotionRestores | scripts/stage-android-addons.js:164-166 | Where the output was set aside and the promotion then failed, it is put back, unless looking for it or putting it back fails too |
| StageCopies.RestorationIsExact | scripts/stage-android-addons.js:163-167 | A throw leaves the output old or new if and only if there was nothing else under the name of the backup, or it could not be moved onto the output |
| StageCopies.CompleteExactly | scripts/stage-android-addons.js:151-162 | The new tree has the report, for each copy its file with the digest that was asked for, the directories above them, and nothing else |
| StageCopies.LeftoverIsPromoted | scripts/stage-android-addons.js:165 | A disk for which a failed promotion moves a leftover directory into the place of an absent output |
| StageCopies.DigestsMatchExactly | scripts/stage-android-addons.js:155-162 | Every digest that the report in the tree lists is that of the file the tree holds for the listed path, if and only if no copy of another content has the name of the report |
| StageCopies.ReportOverwritesCopy | scripts/stage-android-addons.js:156-162 | A list of copies that the guard admits and whose report lists a digest the file does not have |
| StagingPlan.PlanDirectory | scripts/stage-android-addons.js:92-112 | Succeeds exactly when there is a directory, every entry is admitted and one, and only one, is the RLN addon; then there is one copy for each entry, in order: that of the RLN file name from the original with its digest, each other from the linked file with the digest of its content |
| StagingPlan.LinkedNameExactly | scripts/stage-android-addons.js:95 | The names the expression admits are exactly "lib", a base that is not empty and has no separators, ".so", and any number of groups of digits behind a dot |
| StagingPlan.AdmittedExactly | scripts/stage-android-addons.js:95-110 | An entry is admitted exactly when it is a regular file of such a name that either begins like the RLN addon and has its file name, or is for the ABI and mentions the addon neither in its SONAME nor in a needed name |
| StagingPlan.PlanCopies | scripts/stage-android-addons.js:89-115 | Succeeds exactly when every ABI's directory can be planned, and gives the plans one after the other |
| StagingPlan.PlanJoined | scripts/stage-android-addons.js:89-115 | The plan of one list of ABIs followed by another is the one plan followed by the other; for one ABI it is that of its directory |
| StagingPlan.Walk | scripts/stage-android-addons.js:137-145 | The recursive walk accepts exactly when every path below is expected and no link |
| StagingPlan.CheckOwned | scripts/stage-android-addons.js:133-146 | Accepts exactly an absent output, one whose existence check fails, or one holding a report of the script in which every entry is that report, listed, or the directory of one listed, and none is a link |
| StagingPlan.JoinSplits | scripts/stage-android-addons.js:140 | A relative path is written so that its parts can be read back |
| StagingPlan.DirNameIs | scripts/stage-android-addons.js:136 | The directory of a name is what stands before its last part |
| StagingPlan.OwnedOutput | scripts/stage-android-addons.js:117-148 | Returns the canonical output exactly when its existing part is a directory, it overlaps no protected root, and it is absent, or not seen, or owned; in terms of paths, neither the output nor a root is then a continuation of the other, and where one is, nothing is returned |
| StagingRoundTrip.StagedTreeIsOwned | scripts/stage-android-addons.js:133-162 | The tree that staging writes is accepted by the next ownership check |
| StagingRoundTrip.PlannedTreeIsOwned | scripts/stage-android-addons.js:89-170 | Every plan can be staged without conflicts, and the tree it leaves with its report is owned |
| StagingRoundTrip.UnlistedIsInPlaceOfDirectory | scripts/stage-android-addons.js:136-146 | A file of an accepted tree that is neither the report nor listed lies at the directory of a listed path, and nothing lies beneath it |
| StagingRoundTrip.ReplacementIsExact | scripts/stage-android-addons.js:136-146 | Replacing an accepted tree deletes no unlisted file if and only if no file sits at a path that is only the directory of a listed one |
| StagingRoundTrip.UnlistedFileIsAccepted | scripts/stage-android-addons.js:136-142 | A tree that is accepted although a file in it is not listed |
| StagingRoundTrip.PlannedTreeIsListed | scripts/stage-android-addons.js:89-170 | What a run stages from a plan holds listed files and directories only, and every digest its report lists is that of the file at the listed path |
| StagingRoundTrip.PlanShape | scripts/stage-android-addons.js:89-115 | A plan's copies are one for each linked file, one directory deep, and all different |
| StagingRoundTrip.OnlyRlnIsRedirected | scripts/stage-android-addons.js:98-110 | In each directory exactly one entry is taken from the original instead of the linked file |
| Hydrate.Installer.ValidatePayload | scripts/native-distribution.js:68-80 | A payload is admitted exactly when its metadata, manifest and contract are the owner's and its prebuilds are the ones the manifest vouches for |
| Hydrate.AdmittedExactly | scripts/native-distribution.js:68-80 | The packages are admitted exactly when all are of this release with the wrapper's manifest and contract, and the manifest has every field of the configuration with the same value |
| Hydrate.OpenExactly | scripts/native-distribution.js:100-102 | An installation can be made exactly into destinations where the wrapper's target and those of no payload are in place with the digest of the manifest, and nothing irregular is in the way of the others |
| Hydrate.Installer.Admit | scripts/native-distribution.js:95-102 | Everything is checked before the first write, and sound inputs pass |
| Hydrate.Installer.FillStaging | scripts/native-distribution.js:103-110 | Whatever was copied wrongly, half or not at all, a staging directory that passes holds what the manifest vouches for |
| Hydrate.Installer.InstallAll | scripts/native-distribution.js:111-115 | The destinations go through the payload targets one after the other, each replaced whole |
| Hydrate.Installer.Hydrate | scripts/native-distribution.js:94-121 | The states of the destinations are an initial part of one fixed sequence, beginning with the old state; nothing changes unless every package and member was admitted; a return means every configured target is verified. Once the staging directory has been made, every way out attempts to remove it, unless the process dies, and it is gone exactly when that did not fail; without faults the installation returns |
| Hydrate.EachOldOrVerified | scripts/native-distribution.js:109-115 | At any moment each destination is as before or is what the manifest vouches for |
| Hydrate.RerunReachesTheSame | scripts/native-distribution.js:94-121 | From any state an interrupted installation leaves, the checks pass again and the final content is that of an uninterrupted one |
| Overlay.WriteArtifactManifest | scripts/native-overlay.js:497-518 | Keeps the other targets of the same identity, drops those of another, and writes nothing if the old file cannot be parsed or a file cannot be read |
| Overlay.RecordsAreCurrent | scripts/native-overlay.js:490-518 | Over any sequence of writes, a target is recorded exactly if some write recorded it and none of another identity followed; the record is that of the last such write |
| Overlay.VerifyArtifactManifest | scripts/native-overlay.js:520-542 | Succeeds exactly when every field of the identity is in the manifest with the same value and every target's two hashes are the recorded ones |
| Overlay.VerifiesWhileUnchanged | scripts/native-overlay.js:497-542 | After a write, a target verifies exactly while the identity and both contents are what they were |
| Overlay.VerifiesOverHistory | scripts/native-overlay.js:490-542 | Over any history of writes, a target verifies exactly when the last write for it was under the identity asked for, no other identity was written since, and both files are what they were then |
| Overlay.VerifyPackedPrebuilds | scripts/native-overlay.js:571-581 | Succeeds exactly when every field of the identity is in the manifest with the same value and every prebuild is non-empty with its recorded hash |
| Overlay.ArtifactStore.CopyArtifacts | scripts/native-overlay.js:583-594 | With copies that fail or deliver wrong bytes and a manifest write that fails: succeeds exactly if no copy and no write fails and the old manifest can be parsed; without that the manifest is untouched, or is what a failed write leaves; on success it vouches for what arrived, and for the source exactly when every copy was right; other targets' files never change |
| Doubles.SafeRoundedIsExact | json-boundary.js:33 | If the double nearest to an integer is a safe integer, it is that integer |
| Doubles.RoundRounds | json-boundary.js:32 | The computed rounding is the one section 4.3.1 of IEEE 754 defines: no double is nearer, and ties go to the even significand |
| Doubles.RoundSafe | json-boundary.js:33 | Rounding gives a safe integer exactly for safe integers, and then changes nothing |
| Decimals.DecimalDenotes | json-boundary.js:33 | A printed integer is a token of section 6 of RFC 8259 that denotes it |
| Decimals.TokenIsDecimal | json-boundary.js:33 | An integer token is the printed form of what it denotes, except for "-0" |
| Decimals.TokensExactly | json-boundary.js:33 | The integer tokens are exactly "0", digits that begin with another one, and one of these behind a minus |
| Decimals.DigitCounts | json-boundary.js:33 | They are read in base ten, from the left |
| JsonBoundary.ParseIsExact | json-boundary.js:28-38 | Every integer token is parsed to a value for exactly that integer: a number if and only if it is safe, otherwise the token's own text |
| JsonBoundary.ParseIsInjective | json-boundary.js:28-38 | Two integer tokens are parsed to the same value if and only if they denote the same integer |
| JsonBoundary.ParseOther | json-boundary.js:18-38 | Any other token is left to its JavaScript number, and refused exactly when that is not finite or is a whole number of 2^53 or more in size |
| JsonBoundary.U64RoundTrip | json-boundary.js:68-76 | Accepted are exactly safe non-negative numbers and canonical decimal texts below 2^64; the emitted token is canonical and parses back to the same integer |
| JsonBoundary.BurnIsExact | json-boundary.js:56-92 | A request is emitted exactly when it has no other field, an asset, a whole number of confirmations from 0 to 255, no recipient or 64 hexadecimal digits, and two unsigned 64-bit integers, for which the tokens stand |
| Utf16.DecodeEncode | json-boundary.js:99-107 | Decoding code units loses nothing |
| Utf16.EncodeDecode | json-boundary.js:99-107 | Encoding characters loses nothing |
| Utf16.DecodableIsPaired | json-boundary.js:101-106 | What section 2.2 of RFC 2781 decodes is exactly what has every surrogate in a pair |
| Utf16.PairIs | json-boundary.js:99-107 | One code unit that is no surrogate stands for itself and a pair for the character of section 2.2 of RFC 2781 |
| Utf16.Utf8OfBits | json-boundary.js:107 | The bits of a character are spread over one to four bytes as section 3 of RFC 3629 has it |
| Utf16.Utf8Injective | scripts/release-contract.js:134 | Distinct texts have distinct UTF-8 |
| Utf16.WrittenAsItIs | scripts/release-contract.js:134 | A name can be read back from what is written for it if and only if it is well-formed UTF-16 |
| Utf16.TextJoined | scripts/release-contract.js:134 | Strings that do not tear a pair apart are written one after the other |
| Utf16.WrittenAlone | scripts/release-contract.js:134 | No other name is written like it if and only if it is well-formed and has no U+FFFD |
| Bip322.Scan | json-boundary.js:95-110 | The running count is the UTF-8 length of the decoded prefix; the verdict is the one defined on the whole text |
| Bip322.Bip322Request | json-boundary.js:94-112 | Admitted exactly when every field is well-formed UTF-16 whose UTF-8 has at most 4096 bytes for a message or a signature, 128 for an address and 16 otherwise; refused otherwise for the first field that is not |
| Bip322.JudgedByLength | json-boundary.js:98-109 | A field is admitted exactly when it is well-formed UTF-16 whose UTF-8 is within its limit: the early exit agrees with a check of the final length |
| DynamicTable.ReadDynamic | scripts/android-staging-elf.js:40-64 | For both widths, gives exactly the values before the first DT_NULL by tag and in order, and nothing without bounds or DT_NULL: the tag and the value of each entry are the little-endian numbers of its bytes, counted from the offset in the file |
| DynamicTable.ValidateAndroidLifetime | scripts/android-elf.js:36-75 | Accepts exactly a file of the right identification in which, from the offset on, little-endian entries before a DT_NULL have one DT_FLAGS_1, and that has DF_1_NODELETE |
| DynamicTable.ListedIsTable | scripts/android-staging-elf.js:54-62 | The entries before DT_NULL are exactly the pairs whose tags and values are those sums of bytes, none of them with tag zero, and a tag of zero bytes behind them |
| DynamicTable.BoundsExactly | scripts/android-staging-elf.js:47-49 | The bounds checks on rounded numbers hold exactly for an offset and a size that are safe integers, delimit a part of the file, and are a whole number of entries of at most a mebibyte; the lifetime check also has the offset behind the identification |
| DynamicTable.DecodersAgree | scripts/android-staging-elf.js:66-70 | The lifetime check accepts exactly what the other decoder reads and finds the flag in, if the segment lies behind a correct identification |
| DynamicTable.BoundsAreReal | scripts/android-elf.js:46-48 | Bounds checked on rounded sums are bounds of the exact ones, and the stricter check implies the other |
| ElfLayout.EndIsExact | scripts/android-elf.js:85-86 | A sum of addresses that passed its check is exact, and one that did not is not a safe integer |
| ElfLayout.AllowedExactly | scripts/android-elf.js:103-111 | The comparisons of the loop hold exactly when each byte of the section is where it has to be: in RELRO, or on none of its pages |
| ElfLayout.ProtectedExactly | scripts/android-elf.js:106 | The names that have to be protected are exactly seven, and any that continues the fourth with a dot on one line |
| ElfLayout.ProtectionExactly | scripts/android-elf.js:77-112 | With RELRO ending on a page, the comparisons on rounded sums accept exactly the images that are protected byte by byte: RELRO inside one LOAD, DYNAMIC inside RELRO, every allocated section in place |
| ElfLayout.HeadersExactly | scripts/android-staging-elf.js:80-100 | The checks of the headers hold exactly when every number is a whole one with a safe sum, no LOAD is writable and executable, every LOAD and the end of the one RELRO segment are aligned, the one GNU_STACK is not executable, and the protection check holds |
| ElfLayout.DynamicCheckedExactly | scripts/android-staging-elf.js:102-104 | The checks on the grouped table hold exactly when some entry asks for immediate binding, no entry is a text relocation, RPATH or RUNPATH, and DT_FLAGS is not repeated |
| ElfLayout.CheckAddon | scripts/android-staging-elf.js:29-105 | On one file, reading its dynamic table and validating layout and lifetime accept exactly when the headers are in order, the image is protected byte by byte, the identification is right, and the entries at the offset of the one dynamic segment, up to a DT_NULL, keep the addon loaded, bind at once and hold nothing forbidden |
| ElfLayout.LayoutProtects | scripts/android-staging-elf.js:80-100 | In an accepted layout, whatever its dynamic table, the pages of RELRO hold every byte of DYNAMIC and of every protected section and no byte of any other writable one |
| ElfLayout.ProtectionAtSmallerPages | scripts/android-elf.js:77-112 | Protection that holds for pages of 16384 bytes holds for pages of 4096 |
| ElfLayout.ElfAtSmallerPages | scripts/android-elf.js:20-31 | So do the alignment of LOAD and the end of RELRO |
| ElfLayout.LayoutAtSmallerPages | scripts/android-staging-elf.js:80-100 | So does the whole layout check |
| ElfLayout.LayoutImpliesElf | scripts/android-elf.js:6-32 | What the staging check accepts, the plain check accepts |
| ReadOnlySweep.ReadOnly | tests/android/protection.c:32-47 | For lines in any order, true means every address of a non-empty range is in a mapping that can only be read; for ascending disjoint mappings it is true exactly then |
| WrapperHash.HashedBytes | scripts/release-contract.js:131-137 | Hashed are, for each of the sorted files, the UTF-8 of its name and its content with a NUL behind each, unless a file cannot be read |
| WrapperHash.SortedIsSort | scripts/release-contract.js:133 | The sorted list is ordered by code units and has the same files |
| WrapperHash.PrecedesMeans | scripts/release-contract.js:133 | A name comes before another exactly if it begins it or has the smaller code unit where they first differ |
| WrapperHash.OrderDoesNotMatter | scripts/release-contract.js:133 | The stream is the same for every order in which the files are listed |
| WrapperHash.ParseRecovers | scripts/release-contract.js:134 | A parser recovers names and contents from the stream if and only if none has a NUL |
| WrapperHash.NulsCollide | scripts/release-contract.js:134 | Two different file sets, one with NULs in a content, that give the same stream |
| WrapperHash.SameStreamSameFiles | scripts/release-contract.js:131-137 | Equal streams of files without NULs come from equally many files with the same texts as names and the same contents; and from the same names if both lists have well-formed ones, or one of the lists only well-formed ones without U+FFFD |
| WrapperHash.LoneSurrogatesCollide | scripts/release-contract.js:134 | Two names with different lone surrogates, and a well-formed one, that are written alike |
| WrapperHash.OneFileExactly | scripts/release-contract.js:131-137 | For one file: no other name gives the same stream if and only if its name is well-formed and has no U+FFFD, and no other well-formed one if and only if it is well-formed |
| WrapperHash.OrderDecides | scripts/release-contract.js:133-134 | For several files that condition is not necessary: a list with U+FFFD in a name that no other ordered list is written like |

## Left out

- Native code behind the FFI: shutdown returns Ok or Err, free is an event. VSS, signing and BIP-322 verification are not modelled.
- The pass-through entry points: `NodeUse` and `SignerUse` stand for every native call that goes through `require_sdk_node` and `require_signer`. A call that takes a node and a signer is one use of each.
- A native constructor that returns Ok with a NULL object, and the contents of a wrapper before it is registered.
- The strings that native results carry, argument parsing, and the texts of exceptions.
- An order between nodes and signers for an explicit signer shutdown from JavaScript: the binding enforces one in its teardown only.
- Objects that never became wrapped handles: their steps are in the model, but exactly-once claims are about wrapped objects.
- HandleRegistry.Registry.Interleave: other environments enter and leave entries between the locked sections of the drain, as given for each round, which is known by the cursor it starts from; their own pending callbacks and native calls are in the state machine, not in this class.
- Agreement of the registry class and the state machine is about operations during which no other environment moves; with interleaving both sides have their own theorems.
- SHA-256 is taken to be injective: a digest stands for what it is the digest of.
- Paths are POSIX paths without links on the way other than those the scripts look for; for the filesystem root as a protected root the model, like the script, finds no overlap.
- Writing a report or a manifest either succeeds, or fails and leaves anything; only copies can also succeed with wrong bytes. Copying the manifest into the staging directory of an installation is exact or fails.
- Hydrate.Installer.ValidatePayload: the fields in which the package metadata of a payload and its owner are compared are one condition, because the comparisons are independent equalities; validation is one operation for each package and one for the wrapper.
- `stagePayloads`, whose loops are those of the installation, and `verifyDistribution`.
- `verifyArtifacts`: a symbol is looked for as a part of a joined string, so it is not a membership test; `verifyGraph`, which is a lookup.
- Overlay.RecordsAreCurrent: the identities of one history have the same fields, as `overlayIdentity` always produces them.
- JSON tokens with a fraction or an exponent: `ParseNumber` takes the JavaScript number of any token, but rounding of decimals that are not integers is not defined here. The layout of emitted objects is that of the JSON libraries.
- Positive and negative zero are one number: every operation modelled here treats them alike.
- ELF identification, symbol imports, and the JSON that `llvm-readobj` prints, beyond the fields that are compared.
- Lines of the memory map longer than the buffer, and numbers in them that overflow.
- WrapperHash.SameStreamSameFiles: other names are recovered as texts only, because lone surrogates are all written as U+FFFD; in a list of several files whether another list is written alike then also depends on the order of the names.
- Overlay.WriteArtifactManifest: a manifest that its existence check fails to see is the case of an absent one; the histories are of writes that saw it.
- git, cargo, cmake, NDK, Gradle, archives, credentials, environment variables and live-network scripts.
