# Verification of the LETS command-line tool

This project models the protocols and algorithms of `lets`, a command-line tool written in Go that
coordinates coding agents over git worktrees, and proves what they are relied on for. Everything here is
Dafny; `dafny verify dfyconfig.toml` checks it.

External programs (git, Orca, the terminal manager), the file system and the clock are parameters: an
operation is proved for every answer they can give, and where a claim needs them to behave, the lemma says so
in its `requires`. Code that updates state is a class with methods, proved against specification functions;
concurrent code is a state machine over its steps.

- `Ownership`, `Windows`, `TempWorktree`: who may delete the temporary worktree of `lets integrate`; markers,
  nonces, crashes between any two writes, outside actors.
- `Patch`, `PatchPaths`: the apply / verify / reverse transaction on the caller's index and worktree, and the
  revert of a landed chunk.
- `RulesCache`, `CacheRuns`, `SemVer`: the machine-global rules file as a cache of installed plugin releases,
  over runs that mix versions, edits and crashes.
- `Transcript`, `TailTurns`, `Budget`, `Utf8Cut`: reading a transcript from its end, and its byte budgets.
- `CommitGraph`, `Pushed`, `TeamRemove`: whether a commit is on a remote, and the removal that relies on it.
- `Registry`, `Who`, `Standing`: names of live sessions, bindings of branches, and the two standing decisions.
- `SendSteps`, `Handoff`, `SendLock`: typing a pointer into an agent's terminal at most once, alone.
- `FetchSignals`: handing a signal over between two goroutines.
- `Rollout`, `EnvFile`, `EnvRegenerate`, `EnvFixpoint`, `Cells`, `Box`, `PeerHeader`, `HeaderGrammar`, `OneShot`,
  `PrivateKeys`: scanners, printers and parsers.
- `Lines`, `Folds`, `Text`, `Option`: splitting, folding, trimming, the optional value.

Where the code does not keep what its comments promise, the model follows the code, a lemma gives the input,
and another says exactly when the promise holds:

- A worktree swapped between the ownership proof and `worktree remove --force` is removed
  (`SwapBetweenProofAndRemoval`), and two checkouts with a lock each can both be at that point
  (`TwoWindowsRace`); exact condition: `HarmExactly`.
- An uninstalled release after a crash lets the rules cache go backwards (`UninstallBreaksForward`; exact:
  `GoesBackExactly`), and `Plan` does not see that no backup name is free (`PlanIsTheDecision`).
- A range whose commits cancel out ends in a git error instead of "nothing to apply" (`IntegratesExactly`).
- A tool result read without its tool use is redacted as one of no known tool (`ResultWithoutItsUse`; exact:
  `SameResultExactly`, `TailIsForwardExactly`).
- In a shallow repository `not_pushed` can be wrong (`ShallowIsUnsound`; exact: `NotPushedExactly`), and the
  order of remotes can decide between `not_pushed` and `unverified` (`OrderMatters`; exact: `TwoOrdersExactly`,
  for any list `OverAllExactly`).
- A failed `git worktree list` after the removal counts as "git does not list it" (`RemovedIsSoundExactly`).
- Sessions parked in each other leave their name without an address (`MutualParkingHasNoAddress`; exact:
  `NoAddressExactly`).
- A listing without the pane key gives a terminal a second lock (`MissingPaneKeySplitsTheLock`; exact:
  `ApartExactly`).
- A type name written with an escape is filtered out (`HiddenEnd`; exact: `FilterIsExact`).
- A value with a line break, a carriage return or more than 200 bytes keeps `.env` from settling
  (`LongValueIsCut`; exact: `ReadsBackExactly`, `SecondRunSkipsExactly`).
- A handoff header that cannot be removed can be told again (`AtMostOnce`; exact: `SecondTellExactly`).
- A line with an END and a BEGIN delimiter leaves the key lines before it (`KeyLineStays`; exact:
  `BodyBeforeEndExactly`).

## Model

| member | source | states |
|---|---|---|
| Ownership.StepKeepsInv | cli/internal/integratecmd/integrate.go:363-529 | No step of any call (proof, removal, admin-dir deletion, creation, nonce write, crash) breaks what makes removals safe: an issued nonce lies only in gitdirs of worktrees the protocol added, and every open window still names one of them |
| Ownership.OnlyOursRemoved | cli/internal/integratecmd/integrate.go:363-529 | Over every interleaving of calls, crashes and outside actors, everything force-removed or deleted was a worktree the protocol itself added, provided each outside step leaves the open windows on worktrees of ours |
| Ownership.HitsExactly | cli/internal/integratecmd/integrate.go:462-529 | The record of removals is complete: whatever admin dir a call's step takes from the disk is recorded by the worktree it stood for, and nothing else is |
| Ownership.QuietIsUndisturbed | cli/internal/integratecmd/integrate.go:441-496 | A run in which outsiders act only while no call is between its proof and its removal meets that condition, whatever they do |
| Windows.CreatingIsHarmless | cli/internal/integratecmd/integrate.go:363-529 | The run theorem: with one window open at a time, and outsiders that only create while it is open, everything removed or deleted was a worktree the protocol added |
| Windows.HarmlessStays | cli/internal/integratecmd/integrate.go:360-529 | In a harmless state no step of a call hits a foreign worktree, and none leads out of the harmless states |
| Windows.HarmExactly | cli/internal/integratecmd/integrate.go:360-529 | With no further outside step some continuation of the calls removes or deletes a foreign worktree if and only if an open removal or deletion is on one, or a call can claim a foreign registration by its nonce: the path is missing or a call saw it missing, or the checkout there is linked to it, and the nonce was read or can be |
| Windows.PlainDirectoryIsHarmless | cli/internal/integratecmd/integrate.go:370-397 | A plain directory at the path shields every registration, whatever nonce it holds and whatever the marker says, unless a window is open or a call saw the path missing before |
| Windows.TwoWindowsRace | cli/internal/integratecmd/integrate.go:344-354 | One window at a time is needed and the lock does not give it: two calls from two checkouts prove the same worktree, one removes it, an outsider only creates, and the other call removes that |
| Windows.SwapBetweenProofAndRemoval | cli/internal/integratecmd/integrate.go:478-491 | Creating only is needed: for any call and its path, a swap between the nonce check and `worktree remove --force` makes the removal hit the outsider's worktree |
| TempWorktree.Call.ReadMarker | cli/internal/integratecmd/integrate.go:425-439 | A nonce is returned exactly when the marker is readable and names this run, chunk and path |
| TempWorktree.Call.OwnAdminDir | cli/internal/integratecmd/integrate.go:405-423 | The admin dir returned is registered for the path and holds the nonce; none is returned only when no registered one holds it |
| TempWorktree.Call.Listed | cli/internal/integratecmd/integrate.go:441-460 | True exactly when some admin dir registers the path |
| TempWorktree.Call.RemoveOwned | cli/internal/integratecmd/integrate.go:462-496 | Only a worktree with a full proof is removed and a refusal changes nothing; it succeeds exactly when some admin dir can be removed by proof and git, `remove` and the file system are willing, and then that one and the marker are gone |
| TempWorktree.Call.ClearStale | cli/internal/integratecmd/integrate.go:360-403 | Each outcome exactly when; with nothing failing the path is freed exactly when it was free, or nothing stands there and a registered admin dir holds the nonce of a marker for this run, chunk and path, or one is removable by proof; then the marker and exactly that admin dir are gone, and a refusal changes nothing |
| TempWorktree.Call.ClearMissing | cli/internal/integratecmd/integrate.go:378-397 | Where the path is registered and its directory gone: the one admin dir that holds the marker's nonce is deleted with the marker, exactly when the marker names this run, chunk and path; without the proof nothing is touched |
| TempWorktree.Call.StoreNonce | cli/internal/integratecmd/integrate.go:518-528 | The nonce lands in the new worktree's admin dir, or that worktree and the marker are taken back |
| TempWorktree.Call.Create | cli/internal/integratecmd/integrate.go:498-529 | Success leaves marker, worktree and nonce in place; each failure leaves what was there before, as far as the clean-up commands succeed |
| TempWorktree.CreatedIsProven | cli/internal/integratecmd/integrate.go:425-439 | What `create` leaves behind is what `removeOwned` accepts as proven for the same run and chunk |
| TempWorktree.CallsKeepInv | cli/internal/integratecmd/integrate.go:363-529 | The methods take only steps of the state machine, so everything they do keeps its invariant |
| Patch.PatchedBetween | cli/internal/integratecmd/integrate.go:179-201 | Applying the difference of base and picked tree to base gives the picked tree |
| Patch.ReverseUndoes | cli/internal/integratecmd/integrate.go:219-226 | Where the old side was in place, patch then reverse patch is the identity |
| Patch.DirtyExactly | cli/internal/integratecmd/integrate.go:142-148 | A call that passes has the old side of every patch on HEAD in its index, and in its worktree where git tracks it; `dirty_tree` is the answer exactly when some path is staged, changed or missing in the worktree, or neither tracked nor ignored |
| Patch.RefusesExactly | cli/internal/integratecmd/integrate.go:61-82 | Usage, names, git version and lock refuse each exactly when the checks before passed and it failed: a lock another call holds always stops this one |
| Patch.RefusesRangeExactly | cli/internal/integratecmd/integrate.go:141-176 | The same for the tree, the branch and the range of commits |
| Patch.AppliesExactly | cli/internal/integratecmd/integrate.go:85-137 | What picking gives and what the apply then answers, each exactly when, over the answers of git |
| Patch.Checkout.Apply | cli/internal/integratecmd/integrate.go:179-217 | A refusal changes nothing; success leaves the picked tree in the index and each of its files unchanged in the worktree; a mismatch means the landed trees failed that comparison, and leaves what the reverse landed, or what the apply did if the reverse was refused |
| Patch.Checkout.Run | cli/internal/integratecmd/integrate.go:61-137 | Refused and nothing-to-do leave the checkout as it was; success and mismatch come only under a held lock, from a clean tree, a good range with commits and a picked tree; success leaves index and worktree as picked |
| Patch.OutsideIsUntouched | cli/internal/integratecmd/integrate.go:61-137 | HEAD never moves and refusals change nothing; after success the index and the tracked files outside the patch are as before, whatever git did; only for mismatches and untracked files is it assumed that the applies keep to the patch's paths |
| Patch.SuccessIsThePickedTree | cli/internal/integratecmd/integrate.go:200-209 | Success means the index is the picked tree and the worktree has every file of it unchanged, whatever git did; other files are ignored ones or the patch's own, if the apply kept to the patch's paths |
| Patch.IntegratesExactly | cli/internal/integratecmd/integrate.go:61-137 | With an exact git a call that reaches the apply integrates if and only if the commits leave a net change and no ignored file lies where the patch adds one; a range whose commits cancel out ends in a git error |
| Patch.MismatchIsUndone | cli/internal/integratecmd/integrate.go:208-216 | A mismatch is reverse-applied, and the tree is then as before, exactly when the patch's new side is what landed; otherwise the landed state stays |
| Patch.Checkout.RevertPatch | cli/internal/integratecmd/integrate.go:228-293 | A refusal or an empty patch changes nothing; a reverse is tried only where index and worktree agree on the paths; success leaves HEAD's content on them in both; an answered mismatch has a path that differs from HEAD |
| Patch.RevertIsSafe | cli/internal/integratecmd/integrate.go:228-293 | Every refusal leaves both trees alone; a reverse that landed is called a success exactly when the patch's paths are HEAD's in index and worktree, given that both comparisons ran; other paths stay if the apply keeps to the patch's |
| Patch.RevertSeesItsPathsOnly | cli/internal/integratecmd/integrate.go:283-288 | That assumption cannot be dropped: outside the patch's paths the verification notices nothing, so another landing that agrees on them gets the same answer |
| Patch.RevertRefusesExactly | cli/internal/integratecmd/integrate.go:228-262 | The checks of a revert refuse each exactly when those before passed and it failed, the lock included |
| Patch.RevertLandsExactly | cli/internal/integratecmd/integrate.go:261-292 | What a revert answers once its paths are known, each exactly when, over what landed |
| Patch.RevertsExactly | cli/internal/integratecmd/integrate.go:261-292 | With an exact git a revert succeeds if and only if the patch's new side is in index and worktree and its old side is HEAD's |
| Patch.RevertUndoesIntegrate | cli/internal/integratecmd/integrate.go:228-293 | Integrate, then any edits outside the patch's paths, then revert: these paths are as before the integrate, and the edits stay |
| Patch.RoundTrip | cli/internal/integratecmd/integrate.go:228-293 | Integrate then revert with no edit between restores index and worktree exactly |
| PatchPaths.ReadListing | cli/internal/integratecmd/integrate.go:304-325 | One `--numstat -z` listing adds its names to the paths found so far: not empty, not seen before, in order |
| PatchPaths.Read | cli/internal/integratecmd/integrate.go:295-327 | The path list is built from the forward and then the reversed listing |
| PatchPaths.ReadsWhatGitPrints | cli/internal/integratecmd/integrate.go:295-327 | For every printed listing the list has no repeats and names exactly the paths of either direction, both sides of a rename, whatever tabs or line breaks they contain |
| SemVer.PrecedenceOrder | cli/internal/rulescache/rulescache.go:212-212 | Version comparison is a total preorder; versions are equal in it exactly when they differ at most in build metadata, which never changes an answer, as sections 10 and 11 of Semantic Versioning 2.0.0 ask |
| SemVer.SpecExample | cli/internal/rulescache/rulescache.go:212-212 | It orders the whole example chain of section 11.4: alpha, alpha.1, alpha.beta, beta, beta.2, beta.11, rc.1, the release |
| RulesCache.Cache.IsPristine | cli/internal/rulescache/rulescache.go:308-322 | True exactly when some installed release of that version has these very rules |
| RulesCache.Cache.FreeBackup | cli/internal/rulescache/rulescache.go:326-346 | The first of the hundred backup names that is free; none only when all are taken |
| RulesCache.FreeExactly | cli/internal/rulescache/rulescache.go:326-346 | No backup name is given exactly when all hundred are taken, and the one given is the first that is free |
| RulesCache.Cache.SaveCopy | cli/internal/rulescache/rulescache.go:324-347 | The copy goes to a free backup name while the active file and the key stay |
| CacheRuns.JudgeIsProof | cli/internal/rulescache/rulescache.go:189-211 | Over any run a copy judged to be LETS's own is the content of a release of its own version, installed then or before, and gated by that version; a hand edit no such release held is never judged so, and is gated by what was installed last |
| RulesCache.Cache.Rewrite | cli/internal/rulescache/rulescache.go:188-240 | Gate, backup, replace, key: the writes that land are a prefix of the specified ones up to the crash |
| RulesCache.Cache.Sync | cli/internal/rulescache/rulescache.go:155-241 | For every failure and crash point the disk is that of the specification; without a crash the outcome, the versions and backup named and the disk are the ones stated over what it found, only an installed `lets` plugin of one version creates or writes, and whenever it leaves its rules active with the key write working, the key names exactly them - a key left behind by a crash is repaired |
| RulesCache.OutcomeExactly | cli/internal/rulescache/rulescache.go:155-241 | No-op, skipped, kept-newer, created, written and failed, each exactly when, over the disk found and what fails |
| RulesCache.ReportExactly | cli/internal/rulescache/rulescache.go:186-241 | Which versions and which backup name the answer gives, the first free name exactly when the copy is saved |
| RulesCache.LeavesExactly | cli/internal/rulescache/rulescache.go:155-241 | What is on disk when all writes landed: the old copy in the backup named, the new content exactly if created or written, the key naming an installed plugin's active rules, and nothing else changed |
| CacheRuns.SyncEffect | cli/internal/rulescache/rulescache.go:155-241 | Whatever one Sync does, crashed or not, it only installs the content of a trusted root, never over a newer gate, and over foreign content only after saving it |
| CacheRuns.EventKeepsInv | cli/internal/rulescache/rulescache.go:155-241 | Each Sync, outside edit, install and removal keeps the history invariant: what a Sync replaced is a release's content or in a backup, and the key is honest |
| CacheRuns.NoEditLost | cli/internal/rulescache/rulescache.go:155-241 | No hand edit is lost over any run: every content a Sync overwrote was once an installed release's of its own version or is in a backup, backups never change once made, and the key names content that a trusted plugin held, with its version |
| CacheRuns.ForwardOnly | cli/internal/rulescache/rulescache.go:199-216 | While nobody edits the file and no plugin change takes its proof of origin, no mix of plugin versions and crashes makes the active version decrease |
| CacheRuns.InstallingIsCalm | cli/internal/rulescache/rulescache.go:308-322 | Installing plugins, with the present ones left in place, never takes that proof |
| CacheRuns.GoesBackExactly | cli/internal/rulescache/rulescache.go:155-241 | A Sync without failures takes the active copy to an older version if and only if its plugin is trusted and older, the copy has no proof of origin, no newer key gates it, and a backup name is free; a failing or crashing Sync does so only then |
| CacheRuns.UninstallBreaksForward | cli/internal/rulescache/rulescache.go:199-239 | Such a run: a crash before the key write and an uninstall, and an older plugin takes the file back |
| CacheRuns.SecondSyncIsNoop | cli/internal/rulescache/rulescache.go:175-182 | A second Sync by the same plugin writes nothing |
| CacheRuns.PlanIsTheDecision | cli/internal/rulescache/rulescache.go:138-241 | `Plan` promises exactly what Sync then does, except where a copy must be backed up and all backup names are taken |
| Transcript.ParseBackward | cli/internal/peertail/transcript.go:131-145 | The lines of a chunk, parsed last to first, are their records reversed, with the count of non-blank lines |
| Transcript.ChunkInFront | cli/internal/peertail/transcript.go:123-130 | Splitting one more chunk with the carried piece behind it gives the new carry and the whole lines up to it |
| Transcript.TakeChunk | cli/internal/peertail/transcript.go:111-150 | One round keeps the reader's invariant: splitting the bytes read so far gives the carry followed by the processed lines |
| Transcript.ReadBackward | cli/internal/peertail/transcript.go:87-156 | For every content, chunk size and stop rule the records, in order, are those of forward line splitting of the whole lines read: all lines when it reached offset 0, else those after the first newline read; it reads whole chunks, and no further than the first that was enough or reached the limit |
| TailTurns.ToolNameFor | cli/internal/peertail/transcript.go:175-182 | The first tool use with the id names the tool |
| TailTurns.ResolveResults | cli/internal/peertail/transcript.go:157-168 | Over indices: a result whose id is used once gets that use's tool name, and its text is redacted with that name and input; used more often, the first name and the last input count; without a use it is redacted as of no known tool; every other record comes out as it went in |
| TailTurns.TurnsKeepsExactly | cli/internal/peertail/transcript.go:453-471 | The turns are exactly the records that are not END, each behind as many turns as stand before it |
| TailTurns.TailOf | cli/internal/peertail/transcript.go:473-493 | The turns returned are the last n records that are not END of the part read, or all of them, in order, each as resolving makes it come out; the part read is the whole file, the byte limit or enough turns, and no more chunks than that takes |
| TailTurns.SameResultExactly | cli/internal/peertail/transcript.go:157-168 | A result resolves as in the whole file if and only if the part not read has no use of its id, ids being used once and tools having names |
| TailTurns.TailIsForwardExactly | cli/internal/peertail/transcript.go:473-493 | When it reached the start or has enough turns, the tail read answers as reading the whole file forward if, and under the same proviso only if, no returned result answers a use before the part read |
| TailTurns.ResultWithoutItsUse | cli/internal/peertail/transcript.go:162-168 | A result whose use lies before the part read is redacted as one of no known tool |
| Utf8Cut.KeptLen | cli/internal/peertail/transcript.go:438-451 | The kept length: the cap moved back to a byte that starts a character |
| Utf8Cut.Cap | cli/internal/redact/redact.go:201-211 | The capped text: that prefix and a marker with the number of bytes cut |
| Utf8Cut.CapCutsWhereKeptLenCounts | cli/internal/redact/redact.go:201-211 | `Cap` keeps exactly the bytes `keptLen` counts and its marker names exactly the rest |
| Utf8Cut.CutIsLongestPrefix | cli/internal/redact/redact.go:206-210 | Of a text encoded by section 3 of RFC 3629 the cut keeps the longest whole-character prefix that fits |
| Budget.CapTurns | cli/internal/peertail/transcript.go:453-471 | Each turn is capped and keeps its source size and the number of bytes cut |
| Budget.Ceiling | cli/internal/peertail/tail.go:75-87 | The kept turns are the longest run of newest turns under the call ceiling, and always include the newest |
| Budget.Read | cli/internal/peertail/tail.go:70-106 | Turn limit, ceiling and counters: every turn is returned or omitted, and every source byte after the limit is kept or counted as truncated |
| Budget.Conserved | cli/internal/peertail/tail.go:88-103 | The sources are the dropped turns whole, what the returned turns kept, and what their caps cut |
| Budget.CallFits | cli/internal/peertail/tail.go:75-87 | With either per-turn cap the returned text never exceeds the ceiling, the newest turn alone included |
| CommitGraph.ClosedSeesAll | cli/internal/gitutil/remote.go:115-124 | In a repository that is not shallow git sees exactly what is reachable |
| Pushed.Repository.RemoteContainsAny | cli/internal/gitutil/remote.go:56-126 | With an honest git a pushed answer names a head or a tracking ref other than HEAD that reaches the commit: the first tracking ref that contains it, else the first head git confirms; answer and objects are those of `Answer` |
| Pushed.Repository.RemotesContainAny | cli/internal/gitutil/remote.go:128-151 | With an honest git a pushed answer names a remote that has the commit on the branch named, the first that answered pushed at its turn; an unverified one is remembered, an unreadable remote list is unverified |
| Pushed.PushedAtItsTurnExactly | cli/internal/gitutil/remote.go:90-125 | When a remote answers pushed at its turn, over the graph: exactly when a tracking ref reaches the commit, or one of its heads does and all of them were there by then or fetched |
| Pushed.FetchesExactly | cli/internal/gitutil/remote.go:90-114 | The object store grows by a remote's fetch exactly when its answer needs one |
| Pushed.AnswerSound | cli/internal/gitutil/remote.go:56-126 | On every commit graph and head list, pushed means a head or tracking ref reaches the commit; not_pushed means none does, when the repository is not shallow |
| Pushed.NotPushedExactly | cli/internal/gitutil/remote.go:56-126 | `not_pushed` is right about every remote, heads and tracking refs, if and only if the objects, before and after the fetch, show every way to the commit |
| Pushed.ShallowIsUnsound | cli/internal/gitutil/remote.go:115-125 | The smallest case where they do not: a shallow repository without the commits between a head and the one asked for |
| Pushed.OverAllSound | cli/internal/gitutil/remote.go:128-151 | The same over several remotes, although each fetch changes what the next one sees |
| Pushed.StoreFreeExactly | cli/internal/gitutil/remote.go:90-114 | A remote's answer is the same here and in a fuller clone if and only if it is settled or a listed tracking ref decides |
| Pushed.OverAllIsLargest | cli/internal/gitutil/remote.go:128-151 | Over settled remotes the answer is the largest of not_pushed, unverified, pushed |
| Pushed.OrderIsFree | cli/internal/gitutil/remote.go:128-151 | The answer over settled remotes does not depend on the order git lists them in |
| Pushed.TwoOrdersExactly | cli/internal/gitutil/remote.go:128-151 | With a settled remote and any other, the two orders differ if and only if the first's fetch settles the other one, no tracking ref of it decides, and the larger of the two answers changes |
| Pushed.OverAllExactly | cli/internal/gitutil/remote.go:128-151 | Over any list of remotes, in its order: pushed if and only if some remote that is settled at its turn, or decided by a tracking ref, has the commit; not_pushed if and only if every one is and denies it |
| Pushed.OrderMatters | cli/internal/gitutil/remote.go:128-151 | A pair whose order matters: with one failing fetch the answer is not_pushed in one order and unverified in the other |
| TeamRemove.Remover.PsRow | cli/internal/orcacmd/teamcreate.go:91-98 | The first listed row with the name or on the branch of that name, and none exactly when no row has it |
| TeamRemove.Remover.HeadPushed | cli/internal/orcacmd/teamremove.go:104-112 | The unpushed net passes only when some remote reaches HEAD |
| TeamRemove.Remover.Remove | cli/internal/orcacmd/teamremove.go:56-158 | At most one `rm`, issued only for a listed worktree with a clean status whose HEAD a remote reaches; removed exactly when neither side lists it afterwards; refused, dirty, not listed, not attempted and hook-failed exactly when their branch is met |
| TeamRemove.RemovedIsSoundExactly | cli/internal/orcacmd/teamremove.go:127-141 | `removed` is right about git's registration if and only if git's list could be read or Orca still keeps the answer open |
| Registry.Named | cli/internal/ccregistry/registry.go:253-281 | The loops return the carriers of the name that no carrier continues, in order |
| Registry.NamedExactly | cli/internal/ccregistry/registry.go:239-281 | An entry is an address of the name exactly when it carries it and no same-named entry continues it |
| Registry.ContinuationIsTheAddress | cli/internal/ccregistry/registry.go:239-281 | Of a session parked into a background job and the session that runs it, alone under one name, exactly the continuation is the address |
| Registry.PairExactly | cli/internal/ccregistry/registry.go:239-281 | Of two carriers alone under a name each is an address unless it was parked into a background job that the other, as another session, runs |
| Registry.EveryCarrierHasAnAddress | cli/internal/ccregistry/registry.go:253-281 | When parking has no cycle every carrier leads by a chain of continuations to an address of the name |
| Registry.StrandedExactly | cli/internal/ccregistry/registry.go:253-281 | A carrier leads to no address if and only if its continuations never end, and then they run into a cycle |
| Registry.NoAddressExactly | cli/internal/ccregistry/registry.go:253-281 | A name that is carried has no address if and only if the continuations of every carrier run into a cycle and never end |
| Registry.MutualParkingHasNoAddress | cli/internal/ccregistry/registry.go:243-281 | Two live entries parked in each other leave their name without any address |
| Who.Addresses | cli/internal/peerscmd/who.go:192-205 | The session sets per name and the pids that `Named` keeps |
| Who.FirstRecords | cli/internal/peerscmd/who.go:206-211 | Of several records of a name the first counts |
| Who.StandsExactly | cli/internal/peerscmd/who.go:217-221 | The check of the row loop picks exactly the first entry of each session that is not collapsed |
| Who.BaseExactly | cli/internal/peerscmd/who.go:212-253 | What a row shows of its entry: the name when it can be addressed, whether a second live session carries it, the first record of that name, and the binding of the branch checked out there, which the merge branch has not |
| Who.BuildRows | cli/internal/peerscmd/who.go:212-253 | One row and one pid per session, in registry order, and whether a recorded name is live |
| Who.ApplyConvention | cli/internal/peerscmd/who.go:254-261 | The naming convention makes orchestrators only while no recorded name is live |
| Who.OrderExactly | cli/internal/peerscmd/who.go:262-267 | Orchestrators first, then by name, rows of one name in the order of their entries |
| Who.SortStable | cli/internal/peerscmd/who.go:262-267 | Orchestrators first, then by name, equal rows in their former order |
| Who.WhoRows | cli/internal/peerscmd/who.go:183-269 | The rows are exactly those of the entries that stand for their session, one each, in that order, with the pid each was built from |
| Standing.FindTarget | cli/internal/peerscmd/binding.go:256-270 | This repository's row of the same process, or a bare row without any standing |
| Standing.ResolveBound | cli/internal/peerscmd/binding.go:191-215 | The answer for a bound branch: one target, or the reason there is none |
| Standing.ResolveOrchestrator | cli/internal/peerscmd/binding.go:155-254 | The loops give the specified resolution, and on a branch without a binding the answer stated over the rows, with the caller's own record |
| Standing.UnboundExactly | cli/internal/peerscmd/binding.go:222-254 | Without a binding: self, single, ambiguous and none, each exactly when; single needs exactly one other orchestrator row and a registry read whole, and an exhausted budget gives no target unless the caller's own row is an orchestrator's |
| Standing.BoundExactly | cli/internal/peerscmd/binding.go:191-215 | What a binding resolves to, and each reason for no target, exactly when |
| Standing.BoundTargetExactly | cli/internal/peerscmd/binding.go:256-270 | The target is this repository's first row of that session and name, else a bare one without standing, role or binding |
| Standing.OwnRecordExactly | cli/internal/peerscmd/binding.go:173-189 | The caller's own record is the first of its name, exactly while its first entry has a usable name that one live session carries |
| Standing.BoundStaysBound | cli/internal/peerscmd/binding.go:191-215 | A bound branch is answered from its binding, never with a target of another name, and has a target exactly when one session is an address of the name |
| Standing.SenderIsTheAddress | cli/internal/peerscmd/standing.go:81-102 | A socket is let through under a name if and only if the registry was read whole, the name has one address, and its process is a live carrier that no carrier continues |
| Standing.RepoRowOf | cli/internal/peerscmd/standing.go:104-113 | This repository's row built from that very process |
| Standing.RowIsOfEntry | cli/internal/peerscmd/standing.go:104-113 | Such a row is the one `who` built from that entry |
| Standing.WorkerVerdictExactly | cli/internal/peerscmd/standing.go:115-153 | Each reason for not acting on a worker's message, exactly when |
| Standing.OrchestratorVerdictExactly | cli/internal/peerscmd/standing.go:155-178 | Each reason for not acting on an orchestrator's message, exactly when |
| Standing.OrchestratorSide | cli/internal/peerscmd/standing.go:115-153 | The orchestrator side accepts the worker's message if and only if the standing is granted: one address each, the worker's branch bound to the orchestrator's name, its first record standing |
| Standing.WorkerSide | cli/internal/peerscmd/standing.go:155-178 | The worker side, resolving from its branch, accepts the orchestrator's message if and only if the same standing is granted |
| Standing.StandingAgrees | cli/internal/peerscmd/standing.go:84-178 | With both processes at home in the view, the orchestrator side accepts the worker's message if and only if the worker side accepts the orchestrator's |
| Standing.AcceptedIsReturned | cli/internal/peerscmd/standing.go:84-178 | Whatever the orchestrator side accepts, the sender resolves as bound to exactly that name and accepts a message carrying the orchestrator's pid |
| Handoff.Ops.FindTarget | cli/internal/handoffcmd/send.go:212-243 | The record of the latest listing that shows the handle, looked for until one names its agent, at most five times for a new tab and once otherwise; not-found and list-failed exactly when |
| Handoff.Ops.Gate | cli/internal/handoffcmd/send.go:165-192 | Busy exactly when Orca says so or a recognizer sees it on a frame without a draft, not-clear exactly when a draft is held or text is seen, else it passes; it looks once, at this handle |
| Handoff.Ops.Rejoin | cli/internal/handoffcmd/send.go:194-210 | The first terminal of the new listing that holds the same pane under another handle, and so the same lock name; none exactly when there is none |
| Handoff.Ops.SendLocked | cli/internal/handoffcmd/send.go:123-162 | The whole course under the lock, over what screen, listing and sends answer: a refusal skips, an answer is reported as what it is, and after a stale handle there is one more attempt, at an eligible terminal of the same pane, or the delivery failed |
| Handoff.Ops.Send | cli/internal/handoffcmd/send.go:61-163 | For all answers of the terminal manager the text is typed at most once, each send goes under the pane's lock into an eligible agent terminal of the latest listing whose gate passed just before; delivery and reason are those of the course from brief to last answer, each check in its place; the call takes only steps of one sender of the lock machine, sends exactly where that machine types or meets a stale handle, and leaves the locks as they were |
| SendLock.StepKeepsInv | cli/internal/handoffcmd/send.go:123-150 | Every step of any sender keeps: whoever is past the lock holds the lock of its target, re-joins included |
| SendLock.CallsKeepInv | cli/internal/handoffcmd/send.go:123-150 | The steps a call takes keep that invariant, and whenever one of them types, the call holds the lock of the terminal it types into |
| SendLock.TypingIsAlone | cli/internal/handoffcmd/send.go:248-274 | In no run does a sender type or pass its gate while another on the same pane is between lock and send |
| SendLock.TypesOnce | cli/internal/handoffcmd/send.go:61-163 | In every run a sender types at most once, and once it typed, refused or died it does nothing more and holds no lock |
| SendLock.ApartExactly | cli/internal/handoffcmd/send.go:245-253 | Two records can be between gate and send at once if and only if their lock names differ |
| SendLock.MissingPaneKeySplitsTheLock | cli/internal/handoffcmd/send.go:248-253 | One terminal listed once with and once without its pane key gets two locks |
| FetchSignals.StepKeepsInv | cli/internal/gitutil/fetch_unix.go:56-86 | No step loses the first relayed signal, and the two goroutines stay in step |
| FetchSignals.ReportsTheFirstSignal | cli/internal/gitutil/fetch_unix.go:73-88 | In every interleaving an interrupt is reported exactly when a watched signal arrived before Stop, it is the first one, and the watcher has ended |
| FetchSignals.TakenSignalCancels | cli/internal/gitutil/fetch_unix.go:63-71 | A signal the watcher took has cancelled git's context before the main goroutine learns of it |
| FetchSignals.NeverStuck | cli/internal/gitutil/fetch_unix.go:63-82 | Until both goroutines are through one of them can move without any signal, and every own step brings the end nearer |
| FetchSignals.EndsInEightSteps | cli/internal/gitutil/fetch_unix.go:63-82 | The two take at most eight steps in any interleaving with any number of signals |
| Rollout.ScanLines | cli/internal/agentrun/rollout.go:77-115 | The streaming scan with its filter is the function `Scanned` |
| Rollout.ScanRollout | cli/internal/agentrun/rollout.go:69-116 | The report of a file: that scan, and the session header of its first line |
| Rollout.ScanIsMeaning | cli/internal/agentrun/rollout.go:59-116 | With type names written literally the filtered scan gives the first end of the turn that ran at the first qualifying prompt, as decoding every line does |
| Rollout.MeaningExactly | cli/internal/agentrun/rollout.go:59-116 | That meaning line by line: no prompt, no marker; else the first end behind the first qualifying prompt, of the turn running there, says how it went |
| Rollout.HeadlessExactly | cli/internal/agentrun/rollout.go:59-79 | Without a marker the first end of any turn is taken |
| Rollout.FilterIsExact | cli/internal/agentrun/rollout.go:85-87 | The scan gives the meaning of every rollout if and only if no end record hides its type name from the filter, nor a start record unless turn ids tell no ends apart; or no line can be the prompt |
| Rollout.HiddenEnd | cli/internal/agentrun/rollout.go:85-87 | A record with an escaped type name ends the turn while the scan still waits |
| Rollout.AppendingKeepsTheResult | cli/internal/agentrun/rollout.go:99-106 | Once complete or aborted, anything appended to whole lines leaves the result |
| EnvFile.Parse | cli/internal/envfile/envfile.go:30-51 | The loop gives the settings of the lines, the last of a key winning; a line too long to scan is an error |
| EnvFile.ExtractForeignKeysSet | cli/internal/initcmd/env.go:357-380 | The trimmed lines of keys outside the canonical set, in order |
| EnvFile.ForeignExactly | cli/internal/initcmd/env.go:357-380 | A line is kept, trimmed, exactly when it sets a key outside the canonical ones |
| EnvFile.ParsedIsClean | cli/internal/envfile/envfile.go:43-48 | Whatever the text, parsed values hold no line break or carriage return and at most 200 bytes |
| EnvRegenerate.RenderTemplateKeys | cli/internal/initcmd/render.go:80-96 | The rendered text is the header, the version block and one block per key |
| EnvRegenerate.EnvDir.Merge | cli/internal/initcmd/env.go:243-325 | Flag over file over default per key, the file first for the tracker, and the keys that change |
| EnvRegenerate.ChangedExactly | cli/internal/initcmd/env.go:243-325 | A key is reported as changed exactly when the file does not have it as it is to be: a flag that counts says otherwise, or it is missing and given by flag or default |
| EnvRegenerate.EnvDir.RegenerateEnv | cli/internal/initcmd/env.go:60-125 | Each outcome exactly when, for every input and failure; the old file is backed up exactly when it is about to be replaced; file, backup and changed keys are those of the specification; the user-level writer is the same with its own keys |
| EnvFixpoint.RenderedReadsBack | cli/internal/initcmd/render.go:80-96 | Parsing the rendered file gives back the version and all clean values, and its foreign lines are the same, in order |
| EnvFixpoint.WrittenReadsBack | cli/internal/initcmd/env.go:60-125 | After a run every managed key reads as merged, no value that was there is lost without a flag, and the foreign lines are as before |
| EnvFixpoint.GivenFlagWins | cli/internal/initcmd/env.go:243-300 | After a run that wrote, with clean flags, a given flag is what its key reads as, except that the tracker keeps what the file has; a key without a flag keeps its value, and one without either reads as its default |
| EnvFixpoint.BackedUpFirst | cli/internal/initcmd/env.go:91-117 | An existing file is in the backup before it is overwritten, and nothing else writes |
| EnvFixpoint.ReadsBackExactly | cli/internal/initcmd/env.go:60-125 | After a run that wrote, every managed key, the tracker included, reads as the value it ended up with if and only if all these values are clean |
| EnvFixpoint.SecondRunSkipsExactly | cli/internal/initcmd/env.go:91-95 | A second run with the same flags is a skip if and only if all final values are clean, given a clean tracker value |
| EnvFixpoint.LongValueIsCut | cli/internal/envfile/envfile.go:45-47 | A value over 200 bytes is read as its first 200 |
| Cells.WidthConcat | cli/internal/statusline/rich.go:250-259 | Widths of texts whose escapes are SGR sequences add up |
| Cells.SgrExactly | cli/internal/statusline/rich.go:209-211 | An escape sequence is ESC, a bracket, digits and semicolons and an m; it takes no cells |
| Cells.EscapeIsSgr | cli/internal/statusline/rich.go:275-285 | Copying an escape up to its `m` copies exactly the SGR sequence |
| Cells.ClipCell | cli/internal/statusline/rich.go:261-297 | At most w cells: the text itself, or its longest fitting beginning and an ellipsis, escapes kept |
| Cells.FitCell | cli/internal/statusline/rich.go:299-314 | Exactly w cells; a text that fits is kept whole and padded |
| Box.BoxWidthOf | cli/internal/statusline/rich.go:575-600 | The inner width from window and rows |
| Box.RenderRow | cli/internal/statusline/rich.go:601-607 | A row has exactly the box's width; a flex row whose prefix and suffix fit keeps both whole |
| Box.Flush | cli/internal/statusline/rich.go:575-621 | Every emitted line has the same width, each row stands framed at its place, top, divider and bottom are where they belong |
| Box.StaysInTheWindow | cli/internal/statusline/rich.go:579-600 | The lines stay within the window less the margin if and only if it has nine columns or more |
| Box.FillsTheNarrowWindow | cli/internal/statusline/rich.go:579-600 | A narrow window is filled up to the margin, whatever the rows |
| Box.HugsThePlainRows | cli/internal/statusline/rich.go:581-597 | In a wide window the box is as wide as its widest plain row needs, within margin and maximum, and one that needs more takes all there is |
| PeerHeader.ParseHeader | cli/internal/peerscmd/frame.go:39-86 | The loop ends on every input and gives the specified fields, all validated |
| PeerHeader.PrintedParses | cli/internal/peerscmd/frame.go:39-86 | Parsing a header that `Frame` prints gives back exactly its fields |
| HeaderGrammar.AcceptsExactly | cli/internal/peerscmd/frame.go:39-86 | The parser accepts exactly the lines that open with the mark and hold readable fields, no key twice, up to a closing bracket, with valid id, kind and sessions, and gives back what those fields say |
| PeerHeader.LeadingOfPlain | cli/internal/peerscmd/frame.go:88-97 | The same for any message that starts with it, blanks before and any lines after |
| PeerHeader.LeadingOfWrapped | cli/internal/peerscmd/frame.go:23-28 | The same behind a delivery wrapper, with or without the delivery line before it |
| HeaderGrammar.UnwrapsOnlyAWrapper | cli/internal/peerscmd/frame.go:23-28 | Nothing but a delivery wrapper, with the white space and the delivery line before it, is taken off the front of a message |
| HeaderGrammar.DeliveryLineAloneIsNone | cli/internal/peerscmd/frame.go:88-97 | The delivery line without a wrapper behind it opens no message with a header |
| OneShot.PeerMsgs.Frame | cli/internal/peerscmd/send.go:76-123 | Issues the printed header for valid, different sessions, after pruning old files; a failed write issues nothing but may leave an empty or partial file |
| OneShot.PeerMsgs.ReadHandoff | cli/internal/peerscmd/send.go:125-167 | Usage, missing, refused and handed, each exactly when, over the two files |
| OneShot.TellSpendsTheMessage | cli/internal/peerscmd/send.go:169-179 | A tell touches no other message; one that got to reading spends its own if the header could be removed: every later tell finds nothing, whatever is written meanwhile; one that did not get there changed nothing |
| OneShot.PeerMsgs.Tell | cli/internal/peerscmd/send.go:214-247 | Each outcome exactly when: a text is handed back only if it is the whole written one, not too long, under the issued header and addressed to this session and msgid; a usage error or a missing file leaves the directory alone, every other outcome removes both files as far as the disk lets it, and none touches another message |
| OneShot.AtMostOnce | cli/internal/peerscmd/send.go:214-247 | Over any run a msgid's text is handed back twice only if the issued header could not be removed |
| OneShot.SecondTellExactly | cli/internal/peerscmd/send.go:172-179 | A second tell hands it back again exactly when neither file could be removed, or, after a rewrite of the message file, when the header could not |
| OneShot.HandsBackTheMessage | cli/internal/peerscmd/send.go:233-245 | What is handed back is the written text, starting with the issued header and naming this session and msgid |
| OneShot.FramedIsTold | cli/internal/peerscmd/send.go:116-116 | A message written under an issued header is handed back to its addressee |
| PrivateKeys.MarkDelimited | cli/internal/redact/redact.go:91-104 | The array loop marks exactly the delimiter lines and the body lines after a BEGIN and before an END |
| PrivateKeys.MarkFullRuns | cli/internal/redact/redact.go:105-116 | It adds exactly the full-width lines that are not alone |
| PrivateKeys.Redact | cli/internal/redact/redact.go:87-127 | The text after the pass: dropped runs collapsed, all else kept |
| PrivateKeys.PemIsSound | cli/internal/redact/redact.go:72-80 | The program's patterns never match the mark itself |
| PrivateKeys.NothingLeft | cli/internal/redact/redact.go:87-127 | After one pass no BEGIN or END line and no two full-width lines in a row are left |
| PrivateKeys.WhereLinesGo | cli/internal/redact/redact.go:117-126 | Each maximal dropped run becomes exactly one mark, and the other lines keep their order |
| PrivateKeys.Idempotent | cli/internal/redact/redact.go:87-127 | A second pass changes nothing |
| PrivateKeys.BodyBeforeEndExactly | cli/internal/redact/redact.go:91-116 | The body lines before an END go if and only if its line holds no BEGIN as well, or there are none, or a BEGIN stands right above them, or they are two or more of full width |
| PrivateKeys.PemIsSeparate | cli/internal/redact/redact.go:72-80 | The program's patterns take no delimiter line for a body line |
| PrivateKeys.KeyLineStays | cli/internal/redact/redact.go:87-127 | A text where they do not: any body line, then a line with the END of one key and the BEGIN of the next, keeps the body line; with the END alone only the mark is left |

## Left out

- Flag parsing, JSON envelopes, exit codes, human rendering, platform stubs and remediation texts.
- Git's merge machinery, filters and hunk matching: a landing may be any two trees; that it keeps to the patch's paths, or lands the patch exactly, is an assumption where a claim needs it.
- Partial effects of one git command: a `git worktree remove` that deletes half of a directory, an apply cut by a full disk.
- Symlinks and path cleaning: paths are compared as the code compares them after resolving.
- The patch file under `.lets/cache` is not part of the modelled worktree, and directories in the way of files are not modelled.
- Forged nonces, registry files that lie about a pid, edits racing inside one Sync, and overlapping Tell calls are assumed not to happen.
- The lock and the home-directory checks of Sync outside `syncLocked`; the notice texts.
- Shorthand versions such as `1.2`, which Go's semver package also accepts, and SHA-256, which is taken as the content itself.
- `SinceMessage`, `since` and the JSON records of a transcript: a line's records are any function of the line.
- Stale tracking refs: what a tracking ref says is taken as true of the remote.
- The hub's view over several repositories, task ids and last-activity times of rows, `Read`, `Rotated`, `SameProcess` and `Liveness` of the registry: short lookups that would add only easy members.
- `senderPid`: the socket path is a parameter, parsed or not.
- Timeouts are a free choice: a bounded command may fail at any moment.
- `Await` and its polling of many rollouts: only the scan of one file.
- Unicode white space and rune decoding of invalid UTF-8: trimming is ASCII, and texts with escapes are sequences of runes.
- The other redaction rules (tokens, URLs, assignments) and the block pattern of complete keys, which is a parameter.
- EnvRegenerate.EnvDir.RegenerateEnv: parent directories are not created, and a failed backup write is not modelled.
- Handoff.Ops.Send: fingerprint, timestamps and the read-back screen are left out.
- OneShot.PeerMsgs.Frame: labels come as parts of the header, not from the registry.
- Patch.Checkout.Run: the errors of the temporary worktree are one refusal here; `TempWorktree` tells them apart.
- Rollout.ScanRollout: the rollout is read as a whole, not by buffered lines, and the header of the first line is read apart from the scan.
- TempWorktree.Call.Create: the parent directory is a flag, its mode is not modelled.
