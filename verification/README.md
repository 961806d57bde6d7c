# Verified models of CopyPaste's release, CI and sync logic

CopyPaste is a clipboard manager that syncs between devices. This project models the
parts of the repository whose correctness is a claim about whole runs rather than about
one branch, and proves those claims in Dafny:

- **Workflow analysis** (`Digraph`, `JobDependencies`, `Workflows`, `FlatOrder`,
  `Flattening`, `CriticalPath`). The dependency check accepts exactly the graphs with a
  topological order, its acceptance makes the recursive expansion of reusable workflows
  terminate, the expansion preserves the order of jobs exactly, and the memoised search
  finds a longest path or refuses exactly the cyclic graphs.
- **Keyset pagination** (`StringOrder`, `KeysetPages`, `KeysetDrain`, `CloudPull`,
  `CloudCatchUp`). A drain
  returns every row nobody touches exactly once, in order, whatever happens to other rows;
  and so does any series of pulls by the client, with its page cap, its refusals and its
  distrust of rows from the future.
- **Publication** (`Publication`, `PublishProtocol`, `PublishRun`). Over every history of
  interrupted and retried runs nothing uploaded is replaced and only an exact release
  becomes visible.
- **Runtime archive** (`Slashes`, `ArchivePaths`, `RuntimeArchive`, `ArchiveTree`,
  `ArchiveWrites`, `ArchiveRoundTrip`). Acceptance confines every write below the output root, and packing
  and extracting a tree reproduces it under an exact condition on directory modes.
- **Release identity** (`ManifestText`, `ManifestLines`, `CacheKey`, `IndentedManifest`,
  `LockKey`, `ReleaseIdentity`, `ReleaseSync`). Exactly when a version bump leaves the build cache key
  unchanged, over both the manifest and the lockfile; `sync` is all-or-nothing, bumps only
  move forward.
- **Worklists** (`RuntimeClosure`, `ProcessResources`). The ELF closure and the process
  family are least fixed points; accumulated counters telescope.
- **State machines** (`LoopbackDevice`, `DeviceRuns`, `CloseToTray`, `RectangleText`, `GeometryBroker`,
  `Catalog`). Device provisioning with a failure and interference possible at every step,
  the Wayland observation protocol with early signals, the window geometry cache, and the
  module catalog over whole release histories.
- **Binary envelopes** (`BinaryEnvelope`, `BinaryReference`, `BinaryLayout`). Over abstract ciphers with
  stated laws, opening accepts exactly what sealing produces.
- **Version merge** (`SyncMerge`). Replicas that received the same versions agree,
  whatever the order; with tombstones that carry no hash, exactly when no live version
  leads at the tombstone's own time stamp.

`Options` and `DecimalText` are shared by several of them.

Calls to external commands, the bus, the file system and the network appear as parameters
or as nondeterministic steps that may fail. `dafny verify dfyconfig.toml` checks the whole
project.

## Where the code needs a condition

The plain statement fails on some input; the model keeps the code as it is and proves
exactly when the statement holds.

- *Extracting a packed tree reproduces it.* For a user without privileges, the extraction
  cannot fill a directory whose mode does not let it write, because it applies the mode
  first (`ArchiveRoundTrip.ReadOnlyDirectoryLost`), and packing passes over what is in a
  directory it cannot read, without an error
  (`ArchiveRoundTrip.UnreadableDirectoryEmptied`). `ArchiveRoundTrip.RoundTrip` is the
  exact condition on the tree.
- *The module is unloaded only when the live device equals the recorded identity.* The
  unwinding prefers the identity in hand. Before the first record is written, and between
  the owner change and the second record, that one is not recorded.
  `LoopbackDevice.Host.UnloadModule`, `Unwind` and `Provision` say exactly when an unload
  is off the record; `LoopbackDevice.UnloadBeforeRecord` and
  `LoopbackDevice.UnloadOffTheRecord` are such runs from an untouched host. Cleaning up
  never is.
- *A module loaded by this job always has a state file.* A load that reports failure and
  leaves the module loaded is unwound as if nothing had been loaded
  (`LoopbackDevice.MisreportedLoadForgotten`). The statement holds exactly when no state is
  forgotten while such a module is loaded (`LoopbackDevice.RecordedIff`).
- *A version bump is invisible to the cache key.* Exactly when both rewrites of the manifest
  are hidden where they are (`CacheKey.BumpInvisibleIff`), which holds without indented
  table headers, and no dependency in the lockfile is respelled because a fetched package
  shares a workspace member's name (`LockKey.LockInvisibleIff`); together
  `LockKey.KeyUnchangedIff`. `IndentedManifest.IndentedHeaderShows` and
  `LockKey.ClashShows` are inputs that violate each.
- *A pull reads everything since the watermark.* On a table nobody changes, with no row
  ahead of the clock, exactly when fewer than 5000 rows lie ahead
  (`CloudCatchUp.QuietPullReads`); `n / 5000` more pulls read the rest
  (`CloudCatchUp.SessionsDrain`). Once caught up, exactly the rows from the future are left
  (`CloudPull.LeftIffFuture`). `CloudCatchUp.CappedPullLeavesRow` and
  `CloudCatchUp.FutureRowLeft` are inputs.
- *A failed `sync` restores every file.* Except when the lock check breaks down with an error
  that is not handled; `ReleaseSync.Checkout.Sync` says what is left then, and
  `ReleaseSync.Checkout.Bump` that its own check comes first.
- *Every needed library is found by name.* Not when two names lead to one file
  (`RuntimeClosure.AliasNotFound`); `RuntimeClosure.FoundIff` is the exact condition.
- *Deltas equal the sum of last minus first.* Exactly when no counter falls
  (`ProcessResources.Summarize`).
- *Replicas converge.* A tombstone relayed without its hash takes the hash of whatever it
  meets; `SyncMerge.AgreementIff` is the exact condition, `SyncMerge.ContestedDiffers` the
  two orders of delivery that end differently.
- *Parsing inverts printing.* True, but parsing accepts more than what is printed: a
  missing number reads as zero (`RectangleText.MissingNumberIsZero`).

## Model

| member | source | states |
|---|---|---|
| `JobDependencies.Search.Visit` | scripts/ci/policy.py:31-40 | a completed visit leaves the open chain as it was and the finished jobs in topological order; a refusal exhibits a cycle; it terminates on every graph |
| `JobDependencies.Dependencies` | scripts/ci/policy.py:22-44 | in terms of the names each job spells, as one string or as a list: accepted if and only if every needed name is a job and a topological order exists; unknown names and cycles are told apart |
| `JobDependencies.ReadGraph` | scripts/ci/policy.py:22-29 | the dictionary holds exactly the names each job spells, as one string or as a list, or some job needs a name that is no job |
| `JobDependencies.SearchAll` | scripts/ci/policy.py:30-44 | over every starting job, a finished search has the graph in topological order and a refusal exhibits a cycle |
| `Workflows.CallGraphNames` | scripts/ci/policy.py:118-121 | a workflow names another in the call graph exactly when one of its jobs calls it |
| `Workflows.AcceptanceRanksCalls` | scripts/ci/policy.py:118-123 | acceptance of the workflow call graph yields a rank that falls along every call, which is what bounds the recursion of the expansion |
| `Workflows.RenderedIdsDistinct` | scripts/ci/metrics.py:216-221 | with job keys free of `/`, distinct flat nodes have distinct rendered identifiers |
| `FlatOrder.OrderPreserved` | scripts/ci/metrics.py:213-241 | for two jobs of one workflow at any nesting depth, a flat node of the first waits for a flat node of the second if and only if the first job transitively needs the second |
| `FlatOrder.CallsKeepOrder` | scripts/ci/metrics.py:213-241 | reachability inside a called workflow is the same before and after it is placed in its caller |
| `FlatOrder.FlatCycleIff` | scripts/ci/metrics.py:213-241 | the flat graph has a cycle if and only if some workflow in it has circular needs |
| `FlatOrder.ToEntry` | scripts/ci/metrics.py:233-241 | from every flat node some entry of its workflow is reached |
| `FlatOrder.FromExit` | scripts/ci/metrics.py:233-241 | every flat node is reached from some exit of its workflow |
| `Flattening.Flattener.Extend` | scripts/ci/metrics.py:235-238 | exactly the given entries additionally wait for exactly the given exits |
| `Flattening.Flattener.Expand` | scripts/ci/metrics.py:213-241 | adds exactly the flat graph of one workflow below an identity and returns exactly its entries and exits |
| `Flattening.CriticalPathOf` | scripts/ci/metrics.py:209-260 | refuses exactly when some workflow has circular needs; otherwise reports a longest path of the flat graph |
| `CriticalPath.Search.Visit` | scripts/ci/metrics.py:246-256 | a returned value is memoised and is the longest from that node, memoised values are never revised, a refusal exhibits a cycle |
| `CriticalPath.Search.VisitNeeds` | scripts/ci/metrics.py:253 | the first longest value among the needs of a node |
| `CriticalPath.LongestExtends` | scripts/ci/metrics.py:253-254 | extending the best of the needs gives the best of the node over all paths |
| `CriticalPath.LongestPath` | scripts/ci/metrics.py:243-260 | refuses exactly the cyclic graphs; otherwise the duration is the maximum over all dependency paths and the names are the non-zero nodes of a path attaining it |
| `KeysetPages.ListingUnique` | scripts/cloud-stub.py:163-215 | a table has one listing in keyset order |
| `KeysetPages.Listing` | scripts/cloud-stub.py:190-213 | filtering and sorting give exactly the selected rows in keyset order |
| `KeysetPages.Stub.Post` | scripts/cloud-stub.py:120-128 | the table after the posted rows are stored in order |
| `KeysetPages.Stub.Tombstone` | scripts/cloud-stub.py:132-161 | the table after each id is tombstoned, an unseen id included |
| `KeysetPages.Stub.Get` | scripts/cloud-stub.py:163-215 | which requests are refused, and that a page is the first rows of the listing strictly after the cursor |
| `StringOrder.PrecedesIff` | scripts/cloud-stub.py:204-213 | strings compare by their first difference, a prefix first |
| `KeysetPages.LastPostedHeld` | scripts/cloud-stub.py:120-128 | after a request the last row posted under an id is the one held |
| `KeysetPages.DeletedHolds` | scripts/cloud-stub.py:132-161 | each given id has a deleted row without content whose other fields come from the patch, or else from the row or the defaults of an unseen one; nothing else changes |
| `KeysetPages.PageReads` | scripts/cloud-stub.py:171-215 | a page holds rows ahead of the cursor or bound, ordered by stamp and then by id, of a length given by the limit; one that is not full holds all of them |
| `KeysetPages.PositionIff` | scripts/cloud-stub.py:177-197 | a cursor that cannot be read or whose stamps differ, and an exclusive bound, are refused |
| `KeysetDrain.DrainAscends` | scripts/cloud-stub.py:163-215 | whatever changes between pages, a drain is strictly ascending and beyond its start |
| `KeysetDrain.StableRowExactlyOnce` | scripts/cloud-stub.py:163-215 | a row whose key stays unchanged is returned exactly once |
| `KeysetDrain.UntouchedRowDrained` | scripts/cloud-stub.py:124-215 | whatever upserts and tombstones of other rows occur between pages, an untouched row is returned exactly once and unaltered |
| `KeysetDrain.HandledHolds` | scripts/cloud-stub.py:120-161 | a request leaves the last row posted under an id, or an emptied row under each id it tombstones |
| `KeysetDrain.TablesStep` | scripts/cloud-stub.py:120-215 | each page reads the table that the requests before it left, one after another |
| `KeysetDrain.FrozenDrainLists` | scripts/cloud-stub.py:163-215 | on a frozen table the pages concatenate to the sorted table |
| `KeysetDrain.Drain` | scripts/cloud-stub.py:163-215 | paging through a frozen table until a page is short stops, and has read the listing |
| `CloudPull.JudgePage` | crates/copypaste-cloud/src/sync/pull.rs:143-257 | of a page, exactly the acceptable rows that are not from the future are offered; the cursor moves forward only, past everything offered and past nothing from the future |
| `CloudPull.TakenAscends` | crates/copypaste-cloud/src/sync/pull.rs:105-285 | over any series of pulls, whatever happens to the table between pages, what is offered is strictly ascending and lies between the start and the cursor |
| `CloudPull.TakenIffPassed` | crates/copypaste-cloud/src/sync/pull.rs:105-285 | a row nobody touches has been offered if and only if it is acceptable and the cursor is past it, whatever the clock said |
| `CloudPull.OfferedExactlyOnce` | crates/copypaste-cloud/src/sync/pull.rs:105-285 | over any series of capped, stalled and interrupted pulls such a row is offered exactly once when the cursor is past it, and not before |
| `CloudPull.PullsJoin` | crates/copypaste-cloud/src/sync/pull.rs:109-112 | a pull that starts at the persisted cursor continues the one before it |
| `CloudPull.Pull` | crates/copypaste-cloud/src/sync/pull.rs:105-285 | the rounds of one pull form such a chain; at most 50 pages are read, and it stops on a short page, on a full page without progress, at the cap, or on a failed request |
| `CloudPull.NothingLeft` | crates/copypaste-cloud/src/sync/pull.rs:266-281 | unless capped or interrupted, a pull leaves no acceptable row behind that is stamped no later than the clock; when caught up, none but rows from the future |
| `CloudPull.LeftIffFuture` | crates/copypaste-cloud/src/sync/pull.rs:150-162 | when a pull has caught up, an acceptable row of its last request is left behind if and only if it is stamped more than 24 hours after the clock |
| `CloudCatchUp.ThroughTheListing` | crates/copypaste-cloud/src/sync/pull.rs:105-285 | on a table nobody changes, with no row ahead of the clock, any number of rounds has read a prefix of the listing, with the cursor at its end and its acceptable rows offered |
| `CloudCatchUp.QuietPullReads` | crates/copypaste-cloud/src/sync/pull.rs:105-285 | such a pull catches up if and only if fewer than 5000 rows lie ahead and is capped otherwise; it offers the acceptable rows of the first 5000 |
| `CloudCatchUp.SessionsDrain` | crates/copypaste-cloud/src/sync/pull.rs:47-56 | of a series of such pulls each reads the next 5000 rows, and the one that catches up is the one after `n / 5000` others |
| `CloudCatchUp.CappedPullLeavesRow` | crates/copypaste-cloud/src/sync/pull.rs:116 | a table of 5001 rows of which a pull leaves the last |
| `CloudCatchUp.FutureRowLeft` | crates/copypaste-cloud/src/sync/pull.rs:150-162 | a table of one row from the future, without which a pull catches up |
| `ArchivePaths.NormalizeResolves` | scripts/release/compositor-runtime-archive.py:19-34 | normalising a path changes where it leads from no directory |
| `ArchivePaths.SafeNameResolves` | scripts/release/compositor-runtime-archive.py:19-25 | a name is accepted exactly when its walk from the root stays inside and ends below it, and the result is where it ends |
| `ArchivePaths.SafeNameProper` | scripts/release/compositor-runtime-archive.py:19-25 | an accepted name has no `..`, `.` or empty component |
| `ArchivePaths.SafeNameInverse` | scripts/release/compositor-runtime-archive.py:19-25 | a proper path survives being printed and read back |
| `ArchivePaths.SafeLinkResolves` | scripts/release/compositor-runtime-archive.py:28-34 | a link target is accepted exactly when following it from the link's directory stays inside the root |
| `RuntimeArchive.BuildManifest` | scripts/release/compositor-runtime-archive.py:61-70 | accepts exactly safe members with distinct normalised names |
| `RuntimeArchive.HasLinkAncestor` | scripts/release/compositor-runtime-archive.py:71-76 | the walk towards the root finds a symlink member if and only if one is a proper ancestor |
| `RuntimeArchive.Check` | scripts/release/compositor-runtime-archive.py:57-76 | accepts exactly the archives within bounds, with safe distinct names, and with no member below a symlink whatever the order |
| `RuntimeArchive.AcceptsIff` | scripts/release/compositor-runtime-archive.py:19-76 | in terms of walks over path components: accepted exactly when every name stays inside and ends below the root, names differ, every link followed from its own directory stays inside, no member lies below a link, nothing is special, and both bounds hold |
| `RuntimeArchive.TotalSizeAdds` | scripts/release/compositor-runtime-archive.py:58-60 | the bounded total is the bytes of the files added up |
| `ArchiveTree.WriteItems` | scripts/release/compositor-runtime-archive.py:77-93 | members are written in order up to the first failure |
| `ArchiveTree.Extract` | scripts/release/compositor-runtime-archive.py:54-93 | nothing is written unless the whole archive is acceptable |
| `ArchiveTree.WriteConfined` | scripts/release/compositor-runtime-archive.py:80-93 | a write with no symlink on its way lands at its lexical path and changes nothing else but directories above it |
| `ArchiveTree.ExtractionConfined` | scripts/release/compositor-runtime-archive.py:61-93 | for every accepted archive no write passes through a symlink, and a completed extraction holds the members, directories above them and nothing else |
| `ArchiveTree.ExtractionHolds` | scripts/release/compositor-runtime-archive.py:77-93 | a completed extraction of an accepted archive holds every member where its name leads, with its kind, bytes, target and twelve permission bits; every symlink in it stays inside the root when followed |
| `ArchiveWrites.WriteIff` | scripts/release/compositor-runtime-archive.py:80-93 | a write succeeds exactly when its way leads through directories that can be searched, and written where a name is missing, and its own name is free or is a directory that is to be one; what it leaves is stated for every path |
| `ArchiveWrites.OwnerBits` | scripts/release/compositor-runtime-archive.py:82-93 | reading, writing and searching are decided by the bits 0400, 0200 and 0100 |
| `ArchiveWrites.UnnamedAreMade` | scripts/release/compositor-runtime-archive.py:79-92 | directories that no member names have the mode they were made with |
| `ArchiveRoundTrip.Pack` | scripts/release/compositor-runtime-archive.py:37-51 | lists what each readable directory shows, refuses exactly when that is nothing or too much, fails exactly at a listed entry that cannot be examined or read, and otherwise packs one member for each listed entry in sorted order |
| `ArchiveRoundTrip.MemberDescribes` | scripts/release/compositor-runtime-archive.py:45-51 | a packed member leads to its path and carries kind, bytes, mode and target of its entry |
| `ArchiveRoundTrip.PackedAccepted` | scripts/release/compositor-runtime-archive.py:37-79 | what is packed from a valid bounded tree is accepted for extraction |
| `ArchiveRoundTrip.ExtractsPacked` | scripts/release/compositor-runtime-archive.py:37-93 | extracting what was packed from a tree reproduces it if every entry's directory can be searched and written, and is denied otherwise |
| `ArchiveRoundTrip.RoundTrip` | scripts/release/compositor-runtime-archive.py:37-93 | when packing and extracting both succeed, and that the result is what could be listed; it is the whole tree if and only if, for an unprivileged user, every non-empty directory can be read, searched and written, every file read and every link followed, within the bounds |
| `ArchiveRoundTrip.PreservedIff` | scripts/release/compositor-runtime-archive.py:37-93 | that condition on the tree holds exactly when both commands succeed and nothing is passed over |
| `ArchiveRoundTrip.ReadOnlyDirectoryLost` | scripts/release/compositor-runtime-archive.py:80-93 | packing a read-only directory that holds a file gives an acceptable archive whose unprivileged extraction is denied |
| `ArchiveRoundTrip.UnreadableDirectoryEmptied` | scripts/release/compositor-runtime-archive.py:41-47 | a directory of mode 0300 with a file in it: both commands succeed and the file is gone |
| `Publication.Compare` | scripts/release/publish-release.py:24-36 | succeeds exactly when every file has at most one asset of its name and that one equals it; returns the files without an asset |
| `Publication.MissingAssets` | scripts/release/publish-release.py:14-37 | the exact conditions under which a release can be compared with the qualified files |
| `Publication.AgreementMeansPartial` | scripts/release/publish-release.py:14-37 | agreement means some of the qualified files, each once; agreement with nothing missing means exactly the qualified files |
| `PublishProtocol.StepKeeps` | scripts/release/publish-release.py:55-98 | every remote step keeps the invariant of the protocol |
| `PublishProtocol.NothingReplaced` | scripts/modules/publish-qualified-release.py:99-130 | over every history of interrupted and retried runs assets are only appended, and a published release never changes again |
| `PublishProtocol.PublishedIsExact` | scripts/release/publish-release.py:55-98 | whenever the release is no draft its assets are exactly the qualified files, and it has the tag and the commit that were asked for |
| `PublishProtocol.StepExists` | scripts/release/publish-release.py:55-98 | a run is never stuck before it has finished |
| `PublishProtocol.UninterruptedRunPublishes` | scripts/modules/publish-qualified-release.py:83-130 | whatever happened before, a run that is not interrupted takes a bounded number of steps and ends with the exact release published |
| `PublishRun.Remote.Upload` | scripts/release/publish-release.py:65-69 | an upload never overwrites an asset of the same name |
| `PublishRun.UploadAll` | scripts/modules/publish-qualified-release.py:113-122 | uploading the missing files one at a time ends with exactly the qualified files and keeps what was there |
| `PublishRun.Publish` | scripts/release/publish-release.py:55-98 | succeeds exactly on a publishable release, leaves it published and exact under the tag, and for a module at the commit, of the job, keeps what it found otherwise, and is an uninterrupted run of the protocol up to where that finishes or fails |
| `ManifestText.FieldTwice` | scripts/release/version.py:40-48 | rewriting a field finds it again in the same place, and the last rewrite wins |
| `ManifestText.FieldKeepsOthers` | scripts/release/version.py:40-48 | rewriting one field moves no field of another key, for keys without blanks and equals signs |
| `ManifestText.FixedAfterOther` | scripts/release/version.py:51-55 | a field that has its value keeps it through the rewrite of another key |
| `ManifestText.BothFields` | scripts/release/version.py:51-55 | rewriting two fields changes two lines, each as its own rewrite does |
| `ManifestLines.FieldSpanIff` | scripts/release/version.py:42-45 | a field is found exactly where a line consists of the key, an equals sign, a quoted string or a number, and perhaps a comment, with blanks between them |
| `ManifestLines.LocateIff` | scripts/release/version.py:29-48 | a field is located exactly when one line opens its table and one line before the next bracket assigns to the key |
| `ManifestLines.FieldSays` | scripts/release/version.py:40-48 | a rewritten manifest gives the key the new value in the one table |
| `ManifestLines.FieldChanges` | scripts/release/version.py:40-48 | a rewrite changes nothing but the value |
| `ManifestLines.SaysStill` | scripts/release/version.py:51-55 | what one field says survives the rewrite of another key |
| `CacheKey.NormalizeManifest` | scripts/ci/flutter-cache-key.py:9-21 | the line loop computes the normal form |
| `CacheKey.HeadsIff` | scripts/ci/flutter-cache-key.py:12-16 | a line names a table exactly when it is white space, a bracketed name, and perhaps a comment |
| `CacheKey.LineKeptIff` | scripts/ci/flutter-cache-key.py:12-20 | a line stays exactly when the table it is in is no metadata table and it is not a version line of one of the two package tables |
| `CacheKey.HeadlessKept` | scripts/ci/flutter-cache-key.py:10-20 | lines before the first header stay |
| `CacheKey.NormalizeIdempotent` | scripts/ci/flutter-cache-key.py:9-21 | normalisation is idempotent |
| `CacheKey.ChangeInvisibleIff` | scripts/ci/flutter-cache-key.py:9-21 | changes that keep headers and version lines in place are invisible exactly when every changed line is one the key does not cover |
| `CacheKey.VersionInvisibleIff` | scripts/ci/flutter-cache-key.py:9-21 | a version rewrite is invisible exactly when it changes nothing or the section in force there is a package or dropped one |
| `CacheKey.CodeInvisibleIff` | scripts/ci/flutter-cache-key.py:9-21 | a code rewrite is invisible exactly when it changes nothing or the section in force there is a dropped one |
| `CacheKey.BumpInvisibleIff` | scripts/release/version.py:51-55 | a bump of both fields is invisible exactly when each of its rewrites is hidden where it is |
| `CacheKey.BumpInvisible` | scripts/release/version.py:40-55 | without indented headers, normalising after the version and code rewrites equals normalising before |
| `CacheKey.ProjectionIdempotent` | scripts/release/version.py:51-55 | the two rewrites reproduce their own output |
| `IndentedManifest.IndentedHeaderShows` | scripts/ci/flutter-cache-key.py:9-21 | a family of manifests with an indented header for which every bump succeeds and changes the normal form |
| `LockKey.NormalizeLock` | scripts/ci/flutter-cache-key.py:24-39 | stripping local packages and shortening release by release computes the normal form of the lockfile |
| `LockKey.NormalShows` | scripts/ci/flutter-cache-key.py:24-39 | the normal form is every line in its place, mentions of releases built in the checkout shortened, without the version lines of packages that have no source |
| `LockKey.ChangeHiddenIff` | scripts/ci/flutter-cache-key.py:24-39 | two lockfiles of one layout have the same normal form exactly when every line that is no version of a package without a source is shown alike in both |
| `LockKey.FetchedVersionShows` | scripts/ci/flutter-cache-key.py:29-30 | a fetched package that moves to another version shows |
| `LockKey.SourceOfFetched` | scripts/ci/flutter-cache-key.py:29-35 | the source by which a respelled dependency is told apart is that of a fetched package of this release |
| `LockKey.BumpedStripped` | scripts/ci/flutter-cache-key.py:27-36 | stripping hides the members' own version lines and leaves their mentions |
| `LockKey.LockInvisibleIff` | scripts/ci/flutter-cache-key.py:24-39 | a bump of a checked lockfile is invisible exactly when no dependency is on a fetched package of a member's name at the new version, or on the only one at the old version |
| `LockKey.ClashShows` | scripts/ci/flutter-cache-key.py:24-39 | lockfiles with either dependency, for which the bump shows |
| `LockKey.KeyUnchangedIff` | scripts/ci/flutter-cache-key.py:42-65 | a bump leaves everything the key is computed from unchanged exactly when it is hidden in the manifest and clashes with nothing in the lockfile |
| `LockKey.KeyBlindToBump` | scripts/ci/flutter-cache-key.py:42-65 | in particular for every manifest without indented headers |
| `ReleaseIdentity.ProjectionsFixed` | scripts/release/version.py:51-75 | projections reproduce their own output in every file, whatever else changed meanwhile |
| `ReleaseIdentity.ProjectionsIff` | scripts/release/version.py:51-75 | a release can be projected exactly when the manifest has one field for the version and one for the code, the pubspec one version line, and every module a range that ends after the version |
| `ReleaseIdentity.ProjectionsSay` | scripts/release/version.py:51-75 | the projected files spell the version, build number and code of the release, and every module starts at it and ends where it did |
| `ReleaseIdentity.BelowIff` | scripts/release/version.py:67 | versions compare by their first component that differs |
| `ReleaseSync.RestoreUndoes` | scripts/release/version.py:113-131 | restoring the snapshot undoes every change to snapshotted files |
| `ReleaseSync.Checkout.Attempt` | scripts/release/version.py:117-127 | any step may fail, nothing but snapshotted files is touched, and a breakdown of the lock check comes after the projections were written and before the source is |
| `ReleaseSync.Checkout.Sync` | scripts/release/version.py:106-131 | every projection, lockfile and the source agree with and spell out the release, which is within the bounds, or every file is as before, except that a breakdown of the lock check leaves what was written with the source unchanged |
| `ReleaseSync.Checkout.Bump` | scripts/release/version.py:134-141 | from a checkout that is consistent to the next release in full, or no change at all; a breakdown changes nothing either when it does not depend on the files written |
| `ReleaseSync.NoLateBreakdown` | scripts/release/version.py:82-103 | a lock check that agreed before the writes does not break down after them, if breaking down does not depend on the files written |
| `ReleaseSync.BumpsMoveForward` | scripts/release/version.py:134-141 | over any run of bumps both counters rise by one for each success and versions strictly increase, component by component |
| `ReleaseSync.BumpsAreBounded` | scripts/release/version.py:17-26 | at most 65534 bumps fit within the bounds, which every release reached satisfies |
| `RuntimeClosure.CopyGrows` | scripts/release/bundle-linux-gstreamer-camera.py:140-158 | a copy never replaces what is there, holds the file under its own name and the link under the requested one, and adds no other name |
| `RuntimeClosure.Enqueue` | scripts/release/bundle-linux-gstreamer-camera.py:161-175 | the needs of a file are queued, or one that has to be bundled is unknown to the linker |
| `RuntimeClosure.DrainedIsLeast` | scripts/release/bundle-linux-gstreamer-camera.py:161-186 | with an empty queue the copied libraries are the least closed set |
| `RuntimeClosure.CopyRuntimeClosure` | scripts/release/bundle-linux-gstreamer-camera.py:161-186 | terminates; copies exactly the least set of resolved libraries closed under NEEDED, each once; fails only with a reachable need that cannot be met |
| `RuntimeClosure.FoundIff` | scripts/release/bundle-linux-gstreamer-camera.py:161-186 | the name of a needed entry is found if and only if it was there before, or is that of a copied library or of the entry by way of which one was copied |
| `RuntimeClosure.NoAliasAllFound` | scripts/release/bundle-linux-gstreamer-camera.py:161-186 | it is found when no needed entry of another name leads to the same library |
| `RuntimeClosure.AliasNotFound` | scripts/release/bundle-linux-gstreamer-camera.py:170-172 | of two needed entries that lead to one library, one is not found |
| `LoopbackDevice.RunsStaySafe` | scripts/release/provision-linux-v4l2loopback.py:122-206 | at every point at which a run may be cut off, a module it knows to have loaded has a state file, and phases advance one at a time |
| `LoopbackDevice.RecordedIff` | scripts/release/provision-linux-v4l2loopback.py:134-146 | every module this job loaded is recorded throughout if and only if no state is forgotten while a module is loaded that its load did not report |
| `LoopbackDevice.TruthfulRunsRecorded` | scripts/release/provision-linux-v4l2loopback.py:122-206 | in particular with loads that report truthfully |
| `LoopbackDevice.PhasesNeverFall` | scripts/release/provision-linux-v4l2loopback.py:122-206 | while a state file exists its phase never falls |
| `DeviceRuns.RecordsWereRead` | scripts/release/provision-linux-v4l2loopback.py:110-131 | over whole runs, an identity in the state file was read before from the character device with the expected label, capabilities and numbers |
| `DeviceRuns.UnloadsWereRead` | scripts/release/provision-linux-v4l2loopback.py:134-146 | over whole runs, the module is unloaded only on the identity read last, which is the recorded one or, before the record is active, was read twice |
| `DeviceRuns.ExportsWereActive` | scripts/release/provision-linux-v4l2loopback.py:169-178 | over whole runs, the location is exported only with an active record of the identity read last |
| `LoopbackDevice.Host.ReplaceState` | scripts/release/provision-linux-v4l2loopback.py:122-131 | a transition leaves the new record in full or the old one |
| `LoopbackDevice.Host.UnloadModule` | scripts/release/provision-linux-v4l2loopback.py:136-145 | unloads only when the device read last equals the identity in hand or else the recorded one; off the record exactly when those differ |
| `LoopbackDevice.Host.Unwind` | scripts/release/provision-linux-v4l2loopback.py:134-146 | the state is forgotten only when no module of this job is left; otherwise it is kept |
| `LoopbackDevice.Host.Establish` | scripts/release/provision-linux-v4l2loopback.py:162-178 | whatever step fails, what is left is recorded and the identity in hand is the one read last |
| `LoopbackDevice.Host.Provision` | scripts/release/provision-linux-v4l2loopback.py:149-181 | a normal return means an active record of a device last seen job-owned with mode 0600, and exported; a failure means nothing left or a complete record, its unload is off the record exactly when the identity in hand is not the recorded one, and a module is left behind only by a load that reported failure |
| `LoopbackDevice.Host.Cleanup` | scripts/release/provision-linux-v4l2loopback.py:200-206 | only an active record of this user and group is cleaned up, only against the recorded identity, and success unloads exactly once |
| `LoopbackDevice.Host.Reset` | scripts/release/provision-linux-v4l2loopback.py:209-213 | a new session starts only after the old one was cleaned up |
| `LoopbackDevice.UnloadOffTheRecord` | scripts/release/provision-linux-v4l2loopback.py:171-180 | a run from an untouched host that fails after the owner change and unloads on an identity other than the recorded one |
| `LoopbackDevice.UnloadBeforeRecord` | scripts/release/provision-linux-v4l2loopback.py:169-180 | a run from an untouched host that fails at the first record and unloads with no identity recorded |
| `LoopbackDevice.MisreportedLoadForgotten` | scripts/release/provision-linux-v4l2loopback.py:163-180 | a run in which a load reports failure but leaves the module loaded, and the state is forgotten |
| `CloseToTray.Observer.Accept` | scripts/release/linux-desktop-acceptance.py:547-569 | accepts exactly the authentic signals of this transaction that are in order |
| `CloseToTray.Observer.OnObservation` | scripts/release/linux-desktop-acceptance.py:571-596 | every delivery keeps the invariant that no failure means every signal so far was good, and failures are never forgotten |
| `CloseToTray.Observer.Start` | scripts/release/linux-desktop-acceptance.py:524-540 | signals that came before the transaction was known are judged against it once it is |
| `CloseToTray.Observer.Replay` | scripts/release/linux-desktop-acceptance.py:537-539 | after the replay, no failure means exactly that everything heard so far was good |
| `CloseToTray.Observer.AwaitMapped` | scripts/release/linux-desktop-acceptance.py:598-622 | returns only an observation of the expected mapping with nothing wrong before it |
| `CloseToTray.ParkedJudged` | scripts/release/linux-desktop-acceptance.py:537-539 | judging the parked signals later is judging everything heard, and what was refused unseen could not have been good |
| `CloseToTray.VerifyCloseToTray` | scripts/release/linux-desktop-acceptance.py:648-657 | a normal return means an unmapped observation before the menu action and a mapped one after it, with every processed signal authentic and in order; flawless traffic always succeeds |
| `Catalog.Collect` | scripts/modules/catalog.py:186-215 | succeeds exactly when the packages are one version of one module, one for each required target |
| `Catalog.CarryOver` | scripts/modules/catalog.py:218-223 | succeeds exactly when the previous ids are unique and the version rises, component by component |
| `Catalog.BuildCatalog` | scripts/modules/catalog.py:177-225 | succeeds exactly on releasable packages; the listed module says what the packages say, and the result is the previous catalog with it in its place, sorted by id |
| `Catalog.EntryDescribes` | scripts/modules/catalog.py:153-215 | a listed entry says what its package says, field by field, and is listed exactly when its texts are not blank and within the limits and its platforms are allowed by its schema |
| `Catalog.ReleasableIff` | scripts/modules/catalog.py:177-223 | packages can be released exactly when they are those of one module with one artifact for each shipped target of its platforms, the tag is its own, and its version rises component by component |
| `Catalog.ModulesEvolve` | scripts/modules/catalog.py:218-225 | over every chain of catalogs from any first one, built catalogs have unique sorted ids, no module disappears, its version strictly increases, component by component, at its own releases and it is otherwise unchanged |
| `Catalog.ListedWasReleased` | scripts/modules/catalog.py:177-225 | whatever is listed comes unchanged from the first catalog or is the latest release of its module, with exactly one artifact for each required target |
| `RectangleText.ReadNumbers` | scripts/release/linux-wayland-geometry-broker.c:27-34 | the cursor loop reads exactly five numbers in range up to the end of the text |
| `RectangleText.ParseRect` | scripts/release/linux-wayland-geometry-broker.c:27-35 | the parsed rectangle is in range and of positive size |
| `RectangleText.NumberOfSigned` | scripts/release/linux-wayland-geometry-broker.c:30 | reading a printed number gives it back and stops right behind it |
| `RectangleText.NumberOfPlus` | scripts/release/linux-wayland-geometry-broker.c:30 | a plus sign in front of a number changes nothing |
| `RectangleText.SpacePassedOver` | scripts/release/linux-wayland-geometry-broker.c:30 | white space in front of a number is passed over |
| `RectangleText.ParsingInvertsPrinting` | scripts/release/linux-wayland-geometry-broker.c:27-35 | parsing a printed rectangle gives it back exactly when every number is within 32768 of zero and its size is positive, and fails otherwise |
| `RectangleText.MissingNumberIsZero` | scripts/release/linux-wayland-geometry-broker.c:30 | an absent number reads as zero without moving the cursor |
| `GeometryBroker.Broker.Report` | scripts/release/linux-wayland-geometry-broker.c:46-55 | accepted exactly when trusted, well-formed and within 128 records; the cache stays the last-report-wins replay of accepted changes |
| `GeometryBroker.Broker.Remove` | scripts/release/linux-wayland-geometry-broker.c:57 | accepted exactly when trusted and well-formed; removes that record only |
| `GeometryBroker.Broker.Find` | scripts/release/linux-wayland-geometry-broker.c:62-63 | tells no, one and several windows of a name apart in any iteration order |
| `GeometryBroker.Broker.Lookup` | scripts/release/linux-wayland-geometry-broker.c:58-66 | answers exactly for the only window of that name |
| `GeometryBroker.Broker.PointBelongsTo` | scripts/release/linux-wayland-geometry-broker.c:67-76 | true exactly when the only window of that name covers the point and nothing above it does |
| `GeometryBroker.DescribedIff` | scripts/release/linux-wayland-geometry-broker.c:48-51 | what a well-formed report is, and which record it describes, field by field |
| `GeometryBroker.CoversOffsets` | scripts/release/linux-wayland-geometry-broker.c:73 | a window covers exactly the points at an offset from its corner smaller than width and height |
| `GeometryBroker.ReplaysNext` | scripts/release/linux-wayland-geometry-broker.c:53-57 | one more accepted change keeps the cache equal to the replay |
| `GeometryBroker.ExactlyOneOwner` | scripts/release/linux-wayland-geometry-broker.c:67-76 | with unique names and distinct stacking a covered point has exactly one owner and an uncovered one none |
| `GeometryBroker.OwnersTie` | scripts/release/linux-wayland-geometry-broker.c:74-75 | a second window owns a point exactly when it is tied with the first |
| `ProcessResources.Family` | scripts/profile/collect-macos-resources.py:45-55 | terminates with the least set that holds the bundle's processes and is closed under children, which is exactly those with a line of descent |
| `ProcessResources.GainsTelescope` | scripts/profile/collect-macos-resources.py:58-72 | for any appearance pattern, gains less losses equal the sum over identities of last minus first |
| `ProcessResources.NothingLost` | scripts/profile/collect-macos-resources.py:71 | nothing is cut off by the maximum with zero exactly when no counter falls |
| `ProcessResources.Summarize` | scripts/profile/collect-macos-resources.py:58-72 | the deltas are the increases between successive observations of one identity, and equal the sum of last minus first exactly when no counter falls |
| `BinaryEnvelope.ChunksOpenIffSealed` | crates/copypaste-core/src/binary.rs:190-327 | a chunk stream opens to a payload exactly when it is the sealed stream of that payload, chunk by chunk in place |
| `BinaryEnvelope.OpensIffSealed` | crates/copypaste-core/src/binary.rs:172-338 | an envelope opens to a payload exactly when sealing that payload for that id can produce it |
| `BinaryEnvelope.Seal` | crates/copypaste-core/src/binary.rs:172-237 | the chunk loop produces the envelope of every payload within the limit and refuses the others |
| `BinaryEnvelope.OpenChunks` | crates/copypaste-core/src/binary.rs:266-324 | the chunk loop opens exactly as the stream is defined |
| `BinaryEnvelope.Open` | crates/copypaste-core/src/binary.rs:244-338 | header, length, every chunk and the digest have to agree |
| `BinaryLayout.EnvelopeLayout` | crates/copypaste-core/src/binary.rs:104-116 | magic, version, the length as eight big-endian bytes, digest, nonce, and the chunks, which are bound to these 64 bytes |
| `BinaryLayout.ChunkPlaced` | crates/copypaste-core/src/binary.rs:190-237 | the place of every chunk in the stream: 512 KiB each but the last, a tag of 16 bytes behind each, and only the one that ends the payload marked as the last |
| `BinaryReference.Split` | crates/copypaste-core/src/binary_reference.rs:28-39 | an accepted envelope is cut at one fixed offset into two parts that concatenate to it; which envelopes are accepted |
| `BinaryReference.SharedPayloadOpens` | crates/copypaste-core/src/binary_reference.rs:10-64 | the payload part may come from any row that holds the same bytes |
| `BinaryReference.ReferenceOpensIffSealed` | crates/copypaste-core/src/binary_reference.rs:10-64 | an envelope opens to a payload for a row exactly when it was sealed from it for that row, and the reference then authenticates the payload's digest |
| `BinaryReference.AnyOpensIffSealed` | crates/copypaste-core/src/binary.rs:240-243 | a stored row opens exactly the two kinds of envelopes |
| `BinaryReference.SealReference` | crates/copypaste-core/src/binary_reference.rs:10-26 | the buffer holds reference and payload; payloads beyond the limit are refused |
| `BinaryLayout.ReferenceLayout` | crates/copypaste-core/src/binary_reference.rs:10-26 | magic, nonce, the length 80 in four bytes, the reference sealed for this row, and the payload sealed under the spelled digest |
| `BinaryLayout.HexSpells` | crates/copypaste-core/src/binary.rs:51-53 | a digest is spelled in lower-case digits, the high half of each byte first |
| `SyncMerge.TakeRemoteTotal` | crates/copypaste-p2p/src/sync/merge.rs:61-81 | the four keys are a total order: both sides of a session name the same survivor, and a tie changes nothing |
| `SyncMerge.RunCovers` | crates/copypaste-core/src/sync/prepare.rs:115-155 | after any deliveries the stored version is one of them and ranks with or above all of them |
| `SyncMerge.FinalHolds` | crates/copypaste-core/src/sync/prepare.rs:115-182 | what a replica ends up with: a live version with the content, stamp and origin it was delivered with, under the hash of that content; or a tombstone as delivered, without content |
| `SyncMerge.FinalRanks` | crates/copypaste-p2p/src/sync/merge.rs:61-81 | the survivor is latest, then greatest by hash, then deleted before live, then greatest by origin |
| `SyncMerge.PeersConverge` | crates/copypaste-p2p/src/sync/merge.rs:61-93 | replicas that received the same versions in any order and any number of times hold the same version |
| `SyncMerge.ContestedDiffers` | crates/copypaste-core/src/sync/prepare.rs:115-136 | a hashless tombstone that came first loses to the leading live version of its stamp, and deletes it when it came last |
| `SyncMerge.AgreementIff` | crates/copypaste-core/src/sync/prepare.rs:115-155 | replicas agree after every order of delivery, on the same live version or on being gone since the same time, if and only if the latest stamp is not shared by a hashless tombstone and a leading live version |

## Left out

- Matching of observed CI jobs to workflow labels by regular expression, and parsing of timestamps: a parameter gives each label's name and weight.
- `cache_observations`, `percentile` and the reports built from them: they would only add easy members.
- Splitting a lockfile into lines and the parsing inside `check_lock`: lockfiles start as recognised lines, and whether they agree with a release is a parameter of `sync`. What `cargo update` writes is taken to be the members' new versions and the mentions of them.
- HTTP parsing and authentication of the cloud stub: requests start as split parameters. A PATCH body carries no `item_id`. Reading a page is one atomic step, although the stub reads outside its lock.
- Signature, size and decryption checks of pulled rows: one verdict on a row stands for them. Failures of the store while it applies a page are not modelled. A watermark is never negative, so clamping and sorting a page again change nothing.
- Tar byte layout and hard links: archives are lists of members and trees hold directories, files and symlinks, owned by the user who packs and extracts them. Listing follows Python 3.12, which passes over directories it may not read. Which links lead where nothing is denied is a parameter.
- `CacheKey.NormalizeManifest`: lines are cut at newlines only, as `version.py` cuts them; the normaliser also cuts at form feeds, U+0085, U+2028 and the like, so that a comment with such a character in front of a header could show a bump.
- `LockKey.LockInvisibleIff`: packages and dependencies keep their places, although Cargo sorts them by version among packages of one name.
- Concurrent publishers: one publisher is active at a time, and the remote changes by its commands only.
- `ReleaseSync.Checkout.Sync`: being killed in the middle is not a handled failure, and restoring the snapshot is taken to succeed.
- `LoopbackDevice.Host.LoadModule`: a `modprobe` that finds the module loaded succeeds and loads nothing.
- `LoopbackDevice.Host.Unwind`: others may reload the module between the last read and the unload; the claim is about the identity read last.
- The D-Bus calls behind the observer, the clock of its timeout, and `NotificationTranscript`: a signal comes with the result of its credential check, and a loop that gets no signal times out.
- Reading and signature checks of module packages: `Catalog.BuildCatalog` starts from packages as read, in path order, and from a release tag already split into id and version.
- UTF-8 validation in the geometry broker: strings on the bus are valid by its own rules. Saturation of `g_ascii_strtoll` is not modelled because saturated numbers are out of range.
- Rates, peaks and budgets of the resource report: divisions and maxima of what is modelled.
- Cipher internals, the byte layout of associated data, and randomness of nonces: ciphers are functions that accept exactly what they produce in the same place, nonces are parameters.
- Pin state in the merge, size limits, and sealing of the winner: the model keeps the four keys, the content and the hash rule. A stored version's empty origin is taken as already filled in with the device's own id.
- The P2P session protocol, the encrypted store, the daemon and the user interfaces.
- The receipt and trace verifiers: wide record-shape conjunctions that would add many easy members.
