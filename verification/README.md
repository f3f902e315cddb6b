# Verified model of l2syncd

l2syncd keeps a folder equal on two installations. Each keeps an index: for every path a version vector, a tombstone flag
and a content hash, and for every directory a manifest. A cycle, run by the installation with the smaller fingerprint, scans
its tree, lists the peer, compares vectors, executes one action per diverged path, commits each result separately on one side
or both, reconciles directories, and acknowledges so that both sides can drop tombstones.

The project models that program and proves what it is for:

- **The protocol** (`Vectors`, `Index`, `Engine`, `ScanRules`, `PathProtocol`, `Causality`, `Quiescence`, `Protocol`,
  `Witnesses`). One path is a step machine over two replicas, where every scan, listing and index commit is a step of its own,
  so runs stop between the two halves of an action. An inductive invariant holds on every run; from it follow convergence,
  tombstone pruning, versions as an exact encoding of causal history, and quiescence. `Protocol` lifts all of it to whole
  folders; `Witnesses` gives runs that reach the states where a step of the source breaks the invariant.
- **The program's steps** (`Scan`, `Commands`, `Cycle`, `Directories`, `Folder`, `LocalReuse`). The scan, the peer's callbacks
  and the initiator's cycle as imperative methods on two installations. Every outside operation may fail at any point, before
  or after it took effect, and each commit is proved to be a step of the protocol.
- **Content conservation** (`Files`). Writes, conflict installs, reuse, deletion and the move to trash on a disk whose every
  step may be the last.
- **The wire** (`Wire`, `Served`, `Listing`). Length-prefixed frames, chunked files, the peer's end of a write, the incremental
  listing check, and planning across it.
- **Ignore rules** (`Paths`, `Ignore`, `Gitignore`). The recursive matcher and the layered, cached rule files.

Vectors are compared as the source compares them: equality of versions always means that neither is ahead anywhere, because a
merge drops zero counters that appear only on its right. A path missing from an index is the zero entry.

## Where the code differs from its promises

- A file reuse on the initiator looks the offered entry up in the local index (internal/commands/now.go:741). For a file that
  already exists there it commits the peer's version over the old bytes: `LocalReuse.LocalReuseDiverges`, with the exact
  condition in `LocalReuse.LocalReuseNeedsEqualContent`.
- The merge of equal concurrent files does not look at what the peer holds by then (internal/commands/serve.go:364-377):
  `Witnesses.MergeAfterRescanDiverges`, with the exact condition in `PathProtocol.MergeNeedsListedContent`.
- For the same reason it drops what was scanned there since the listing: an edit the peer has indexed disappears from its version, the
  initiator's version dominates it unseen, and where both sides edited the file the next cycle pushes over the peer's bytes
  instead of keeping a conflict copy: `Witnesses.MergeHidesPeerEdit`, with the exact condition in `Protocol.MergeHidesEdits`.
- A failed acknowledgement on the peer is only logged (internal/commands/now.go:472-474), and an acknowledgement does not
  notice what was scanned since the listing, although counters restart after a prune: `Witnesses.HalfAcknowledgementDiverges`,
  `Witnesses.OvertakenAcknowledgementDiverges`, with the exact condition in `PathProtocol.PruningConsistent`.
- Comments call pruning optional and say that a lost acknowledgement only postpones it (internal/commands/now.go:450-456).
  A half-lost one leaves the peer alone with a tombstone, which every later cycle plans as a deletion here; with no file to
  delete that is an error (internal/apply/apply.go:274-281), so no later cycle completes until a file appears there:
  `FolderCycle.CycleAfterLostAcknowledgement`, `FolderCycle.PlanFolder`. A file created, scanned and deleted here before the peer
  ever heard of it does the same on the peer's side: `FolderCycle.NeverSharedWedges`. What a file created anew meets there:
  `PathProtocol.RecreatedOnInitiator`.
- A file pushed to where a directory-only pattern hides it from the scan, without a rule for the file itself, is taken for
  deleted by the next scan there and then deleted on the side that pushed it: `Protocol.HiddenPathsEmpty`. Exactly such
  files are lost: `Protocol.SyncedFileSurvives`.
- A tracked file replaced by a directory, or a directory replaced by a file, leaves a tombstone that no listing can carry:
  `RemoteIndex.ReplacedFileCannotBeListed`, `RemoteIndex.ReplacedDirectoryCannotBeListed`, and exactly when a listing works:
  `RemoteIndex.ListableIffConsistent`.
- Comments say that the next scan records a conflict copy as a new file (internal/commands/serve.go:287-290,
  internal/transport/protocol.go:450-453). Its name is always ignored, so no scan does: `IgnorePatterns.ConflictCopiesIgnored`.
- A temporary file left behind by a crash is not ignored, so the next scan takes it for content:
  `IgnorePatterns.TemporariesNotIgnored`.

## Model

| member | source | states |
|---|---|---|
| `Protocol.CountersAndContent` | internal/engine/engine.go:125-172 | on every two-replica run of edits, scans, listings, single index commits and whole or partial acknowledgements, wherever it is cut off, neither installation's own counter for a path is behind the other's copy, and Compare-Equal versions imply the same deletion state and hash |
| `Protocol.RunKeepsInvariant` | internal/commands/now.go:374-448 | the inductive invariant behind it holds at every path after any number of steps |
| `PathProtocol.InvariantStep` | internal/commands/now.go:591-725 | each scan, listing, commit on either side, whole, lost or overtaken acknowledgement or abandoned cycle keeps the invariant at its path |
| `PathProtocol.InvariantCommitInitiator` | internal/commands/status.go:155-162 | the initiator's own commit of any action keeps it, including the first half of a merge or conflict |
| `PathProtocol.InvariantCommitPeer` | internal/commands/serve.go:261-284 | the peer's commit keeps it, whatever scans came between, including the second half of a merge exactly where MergeNeedsListedContent allows it |
| `PathProtocol.MergeNeedsListedContent` | internal/commands/serve.go:364-377 | a vector-only merge landing on the peer keeps the pair consistent exactly when the initiator has moved on or the peer still holds the listed content |
| `Witnesses.MergeAfterRescanDiverges` | internal/commands/serve.go:364-377 | a run of six steps from two new installations reaches a state where the peer was scanned with an edit before its half of the merge arrives; that merge leaves equal versions over different content |
| `PathProtocol.PruningConsistent` | internal/commands/now.go:457-475 | from any state of a run, forgetting an entry on either side, both or neither keeps the pair consistent if and only if what one side forgets counts no edit of its own in what the other keeps |
| `PathProtocol.RecreatedOnInitiator` | internal/engine/engine.go:125-172 | what that means: where the initiator has forgotten the path and the peer keeps an entry, a file created anew at the initiator is deleted, replaced or left alone if the kept entry counts an edit of the initiator, and otherwise survives a tombstone and competes with a file |
| `PathProtocol.RecreatedOnPeer` | internal/engine/engine.go:125-172 | the same where the peer has forgotten it |
| `PathProtocol.HalfAcknowledgement` | internal/commands/now.go:457-475 | when only the initiator prunes, after whatever scans, the pair stays consistent if and only if no dropped tombstone leaves an edit of the initiator counted at the peer |
| `PathProtocol.OvertakenAcknowledgement` | internal/index/index.go:169-196 | the same condition when both prune after scans have overtaken the cycle |
| `Witnesses.HalfAcknowledgementDiverges` | internal/commands/now.go:472-474 | a run of eight steps, create, push, delete, delete, reaches a state where losing the peer's acknowledgement leaves the initiator's counter behind the peer's copy |
| `Witnesses.OvertakenAcknowledgementDiverges` | internal/commands/now.go:457-475 | a run of ten steps reaches a state where the peer created the file anew before the acknowledgement, and even pruning both sides leaves the initiator's counter behind |
| `Witnesses.PathRunIsFolderRun` | internal/commands/now.go:374-448 | every run of the path machine from two new installations is a run of a whole folder, so what a path can reach a folder reaches |
| `PathProtocol.InitiatorWins` | internal/engine/engine.go:168-179 | the winner of every planned conflict is the initiator, the loser the peer |
| `Protocol.CompletedCycleConverges` | internal/commands/now.go:374-448 | at each path whose action is done and that no scan has advanced since, whatever is pending elsewhere: equal deletion state and hash, and equal versions except where the cycle resurrected a file: there the source is strictly behind |
| `Protocol.AcknowledgementPrunes` | internal/index/index.go:157-214 | after a completed cycle the acknowledgement with the initiator's global vector drops every tombstone and no live entry, and the same paths on both sides |
| `Protocol.DeletionStays` | internal/commands/serve.go:130-143 | an acknowledged deletion is mentioned by no index and no plan until a tree shows a file there again |
| `Protocol.VersionsEncodeHistories` | internal/vector/vector.go:36-65 | on every run whose vector-only merges find the peer's entry at the listed version, Compare returns Greater, Lesser, Equal or Concurrent precisely as the two sets of causally preceding edit events are strict superset, strict subset, equal or incomparable |
| `Protocol.MergeHidesEdits` | internal/commands/serve.go:364-377 | the first vector-only merge of a run leaves the initiator's version dominating the peer's, and the peer's history is contained in the initiator's if and only if no scan had advanced the peer's entry since the listing |
| `Witnesses.MergeHidesPeerEdit` | internal/commands/serve.go:364-377 | a nine-step folder run in which both sides edit before the peer's half of a merge lands: the peer's edited bytes then stand under a version that does not count the edit, Compare says Greater although the initiator never saw it, and the plan is a push over them |
| `Causality.CausalStep` | internal/vector/vector.go:70-89 | every step but such a merge keeps each counter equal to the number of that installation's edits in the entry's history |
| `Causality.MergeKeepsHistory` | internal/commands/serve.go:364-377 | the peer's half of a merge keeps that equality if and only if the peer's entry is still at the listed version |
| `Causality.CompareIsCausality` | internal/vector/vector.go:36-65 | comparison of versions is comparison of histories for any state satisfying that invariant |
| `Protocol.TwoCyclesComeToRest` | internal/commands/now.go:388-430 | with no user edits, after two completed cycles versions agree at every path, a rescan of either tree reports nothing and the plan is empty there, two files seen at a path have one content, and where no rule covers it one tree shows a file exactly when the other does; whatever the ignore rules hide and however many other acknowledgements were lost or overtaken |
| `Protocol.HiddenPathsEmpty` | internal/scan/scan.go:205-231 | a path that one tree hides from its scan while no rule matches the path itself holds no visible file and no entry on either side after those two cycles: what was pushed there has been deleted on the other side |
| `Protocol.SyncedFileSurvives` | internal/scan/scan.go:205-231 | a file that one completed cycle has left is there after the second, live on both sides and with its content, if and only if neither tree hides the path from its scan without a rule for the path itself |
| `Quiescence.TwoCyclesRest` | internal/scan/scan.go:173-231 | the same at one path, over every undisturbed run |
| `Quiescence.BlindPathEmpties` | internal/scan/scan.go:205-231 | the same at one path |
| `Quiescence.SurvivesUnlessBlind` | internal/scan/scan.go:205-231 | the same at one path, in both directions |
| `Quiescence.SeenFileStays` | internal/commands/now.go:388-430 | where neither scan is blind, a file left by one completed cycle stays agreed and unreported at every later step, in the middle of cycles too |
| `Vectors.CompareVectors` | internal/vector/vector.go:36-65 | the two-flag loops compute the causal comparison: Equal exactly when each dominates the other, and so on |
| `Vectors.MergeVectors` | internal/vector/vector.go:70-79 | the loop computes the merge |
| `Vectors.MergeLeast` | internal/vector/vector.go:67-79 | the merge is the least vector dominating both |
| `Vectors.MergeSymmetric` | internal/vector/vector.go:67-79 | merging is symmetric up to comparison, although zero counters may differ |
| `Vectors.CompareMirror` | internal/vector/vector.go:36-65 | swapping the operands mirrors the comparison |
| `Vectors.IncrementVector` | internal/vector/vector.go:84-89 | a copy with one counter one higher |
| `Vectors.IncrementAhead` | internal/vector/vector.go:81-89 | an increment is strictly ahead and changes no other counter |
| `Index.FolderIndex.GlobalVector` | internal/index/index.go:157-163 | in any iteration order, the least vector dominating every entry, live or deleted |
| `Index.GlobalUnique` | internal/index/index.go:150-163 | any two such results compare equal |
| `Index.FolderIndex.Acknowledge` | internal/index/index.go:169-175 | records the member's vector and removes exactly the tombstones every member dominates |
| `Index.FolderIndex.Prune` | internal/index/index.go:183-196 | removes exactly the tombstones that every member has acknowledged, changes no other entry, and does nothing without members |
| `Index.FolderIndex.AllAcknowledge` | internal/index/index.go:201-214 | true exactly when every member's recorded vector dominates the target |
| `Metadata.EqualManifests` | internal/metadata/metadata.go:204-215 | the early-return comparison is equality of manifests |
| `Engine.PlanStates` | internal/engine/engine.go:86-118 | the loops compute the plan as a function of both indexes and the previous directories |
| `Engine.PlanDirectories` | internal/engine/engine.go:185-235 | the loop computes the directory plan |
| `EngineProperties.PlanCoversDivergence` | internal/engine/engine.go:104-117 | a plan that is not halted has exactly one action per path whose versions are not Compare-Equal, sorted by path, with at most max(10, ceil(total/5)) deletions |
| `EngineProperties.PlanHaltsExactly` | internal/guard/guard.go:69-72 | a plan is halted, and then empty, if and only if a name is missing or both are equal, or n > 10 and all known paths are at most 5(n - 1), where n counts the paths whose strictly ahead entry is a tombstone |
| `EngineProperties.PlanFilesExact` | internal/engine/engine.go:125-172 | every action is the decision for its own path, in increasing path order, and no diverged path is left out |
| `EngineProperties.PlanMirrors` | internal/engine/engine.go:86-179 | swapping the replicas mirrors the whole plan: same halt, same paths in order, Push and Pull exchanged, same source, winner and loser, vectors equal up to comparison, for files and directories |
| `EngineProperties.DirectoryThreeWay` | internal/engine/engine.go:185-235 | directory planning is a three-way merge: silent exactly when both sides agree, Delete exactly when one side removed what the other still holds as last committed, and the installed manifest follows the lone change, the edit over a removal, or the smaller name |
| `EngineProperties.PlanDirectoriesExact` | internal/engine/engine.go:196-234 | one directory action per path with a decision, in order |
| `Scan.Reconcile` | internal/scan/scan.go:86-233 | records a live entry at exactly the regular files that no file-level rule matches and whose ancestors are all directories that no rule matches, apart from what it carries forward; leaves every ignored path's entry as it was; records exactly the reached directories and skipped files; lists each path once, in order, as added, modified or deleted by what became of it between the two indexes; and needs a fingerprint |
| `Scan.VisitFile` | internal/scan/scan.go:173-198 | one file's entry and change, through the cached triple |
| `Scan.FinishScan` | internal/scan/scan.go:205-231 | unseen paths are carried forward or become tombstones |
| `Scan.ScanIsLocalHistory` | internal/scan/scan.go:107-231 | a scan drops no entry, advances a version by exactly one local edit exactly at the reported paths, and carries forward unseen paths that the file-level rules match |
| `Scan.RescanIsIdempotent` | internal/scan/scan.go:173-198 | scanning the same tree again reports nothing and records the same entries |
| `Scan.UnseenIsDeleted` | internal/scan/scan.go:205-231 | a live entry becomes a tombstone exactly when the walk does not see it and no file-level rule matches its own path |
| `HashCache.CacheAgreesWithHashing` | internal/scan/scan.go:173-181 | on every run of scans and commits on both sides, the inode, ctime and size cache records what hashing every file would |
| `Protocol.ScansAreHashing` | internal/scan/scan.go:173-181 | on every folder run the cached scans of both trees record at every path what hashing every file would, as long as an unchanged triple meant unchanged bytes |
| `Installations.Installation.CommitEntry` | internal/commands/status.go:155-162 | one entry replaced, or nothing on failure |
| `Installations.Installation.FileWriter` | internal/commands/serve.go:261-268 | file, manifest and entry land together; on failure no entry changed, nothing outside the path, and the path holds what it held, nothing or the complete new file |
| `Installations.Installation.FileDeleter` | internal/commands/serve.go:269-276 | the file leaves the tree and a tombstone with the given vector is committed; an absent file is an error |
| `Installations.Installation.ConflictWriter` | internal/commands/serve.go:277-284 | the winner is at the path, the former file under its conflict name, which was free; wherever it stops the former file is at one of the two |
| `Installations.Installation.FileReuser` | internal/commands/serve.go:301-337 | answering yes leaves exactly what the file writer would have left; answering no leaves tree and index as they were |
| `Installations.Installation.MergeVector` | internal/commands/serve.go:364-377 | only the vector of a tracked entry changes; an untracked path is an error |
| `Installations.Installation.AcknowledgeVector` | internal/commands/serve.go:130-143 | records the member's vector and drops exactly the tombstones it dominates |
| `Installations.Installation.DirectoryWriter` | internal/commands/serve.go:338-345 | directory, manifest and table entry land together |
| `Installations.Installation.DirectoryDeleter` | internal/commands/serve.go:346-363 | an occupied directory is kept, on disk and in the table |
| `Cycle.OneInitiator` | internal/commands/now.go:254-262 | of two distinct named installations exactly one initiates |
| `Cycle.ElectionRefuses` | internal/commands/now.go:254-262 | unnamed or equal installations elect nobody |
| `Cycle.ElectedWins` | internal/engine/engine.go:168-179 | whatever the two indexes hold, the elected installation wins every conflict that its cycle plans and the other one loses |
| `Order.LessLexicographic` | internal/commands/now.go:261 | the order of fingerprints and paths: the first differing character decides and a proper prefix comes first |
| `Cycle.SuffixOfNewer` | internal/commands/now.go:686-692 | both sides compute one conflict suffix, from the newer of the two modification times |
| `Cycle.PullFile` | internal/commands/now.go:694-705 | the peer's content lands here with the action's vector, and if the peer no longer holds the listed content nothing changes here |
| `Cycle.PushFile` | internal/commands/now.go:707-716 | the peer holds the content, or may hold it although its answer was lost; if the file here is no longer the planned one nothing changes there |
| `Cycle.ApplyAction` | internal/commands/now.go:591-627 | one action: whatever fails, other paths keep their entries, and the invariant stays at this one if it held; completed, both replicas are settled and the trees show the action's effect; a deletion of a path absent where it executes fails and changes nothing, whatever the indexes hold |
| `Cycle.ApplyConflict` | internal/commands/now.go:629-684 | completed, both replicas hold the winner at the path, the loser's bytes under the same conflict name, and the merged vector in both indexes; if that name is taken on either side, nothing changes on either |
| `Cycle.ListFiles` | internal/commands/serve.go:212-249 | the peer scans, saves and answers with its entries and directories |
| `Cycle.ExecutePlan` | internal/commands/now.go:411-430 | the action loop: on every exit the invariant holds at each path where it held, after the last action each such path is settled, and a deletion with nothing to delete anywhere in the plan makes it fail |
| `Cycle.AcknowledgeCycle` | internal/commands/now.go:457-475 | both sides, one side or neither pruned and recorded as acknowledged with the initiator's global vector, and what each leaves at every settled path: agreeing indexes without tombstones, or a tombstone of the peer alone |
| `DirectoryExecution.SortByDepth` | internal/commands/now.go:480-484 | a permutation in decreasing depth |
| `DirectoryExecution.DepthOrder` | internal/commands/now.go:477-484 | decreasing depth puts every descendant before its ancestors |
| `DirectoryExecution.DeleteDirectories` | internal/commands/now.go:431-439 | each planned deletion is done when all are: gone, or kept because something stands below it; undeleted paths keep their table entries |
| `DirectoryExecution.SurvivorHasReason` | internal/apply/apply.go:250-272 | a directory outlives its deletion only because of something below it that was not to be deleted |
| `DirectoryExecution.RestoreDirectoryMetadata` | internal/commands/now.go:486-534 | at every directory with a decision other than removal, and at every ancestor of a file acted on, the chosen manifest is on both disks and in both tables; everywhere else nothing changes, and no finished deletion is undone |
| `DirectoryExecution.RestoredExactly` | internal/commands/now.go:489-501 | the directories dealt with are those ancestors and those decisions, and no others |
| `DirectoryExecution.ChosenIsInstalled` | internal/commands/now.go:515-522 | the manifest restored for an action is the one the three-way decision installs, and it exists |
| `FolderCycle.Prepare` | internal/commands/now.go:388-408 | scan, listing and plan: the plan's actions are the decisions in order, wherever the invariant held they are exactly what the protocol waits for, and every exit keeps it there |
| `FolderCycle.ReconcileDirectories` | internal/commands/now.go:431-443 | at every path both tables end with the decided manifest, or agree as they did, or the deletion is done; above every file acted on, both sides have its manifest on disk again |
| `FolderCycle.PlanFolder` | internal/commands/now.go:374-448 | a whole cycle from any two indexes: every failing exit keeps the invariant wherever it held; completion leaves equal content at each such path, reconciled directories, and after a full acknowledgement no tombstone; while any path is wedged, with no file in either tree, no live entry and one tombstone strictly ahead, it fails and leaves that as it was |
| `FolderCycle.RunInitiatorFolderCycle` | internal/commands/now.go:289-325 | the elected installation's cycle, with everything PlanFolder promises; the other installation refuses and changes nothing |
| `FolderCycle.DeletionPlanned` | internal/engine/engine.go:125-172 | where neither index lists a path live, the plan deletes it if and only if one version is strictly ahead, and the side that is behind has to do it |
| `FolderCycle.LostAcknowledgementWedges` | internal/commands/now.go:472-474 | a completed cycle whose acknowledgement reached only the initiator wedges each path that the peer still holds deleted and that neither tree has |
| `FolderCycle.NeverSharedWedges` | internal/apply/apply.go:274-281 | so does a file the initiator deleted again before any listing told the peer of it |
| `FolderCycle.CycleAfterLostAcknowledgement` | internal/commands/now.go:374-475 | two cycles in a row: if the first one's acknowledgement reached only the initiator and left such a path, the second fails and the path stays wedged |
| `LocalReuse.ReuseOffered` | internal/commands/now.go:740-761 | reuse with the peer's entry as the offer leaves what a transfer leaves |
| `LocalReuse.ReuseLocal` | internal/commands/now.go:740-761 | as written the offer is the local entry, so its own hash and manifest are committed under the action's vector |
| `LocalReuse.LocalReuseNeedsEqualContent` | internal/commands/now.go:740-761 | that commit keeps the pair consistent if and only if the peer has moved on since the listing or the two files had equal content already |
| `LocalReuse.LocalReuseDiverges` | internal/commands/now.go:740-761 | concrete pull that commits old bytes under the peer's newer version |
| `Filesystem.Disk.Rename` | internal/apply/apply.go:319-324 | atomic; without replacement an existing destination is an error |
| `Trash.UniquePath` | internal/trash/trash.go:123-133 | the first free name of path, path.1, path.2, ...; the search ends |
| `Trash.ItoaInjective` | internal/trash/trash.go:123-133 | distinct counters give distinct names |
| `Trash.MoveTo` | internal/trash/trash.go:112-121 | the file is at a fresh name and nowhere else, or nothing changed |
| `Trash.Move` | internal/trash/trash.go:28-62 | an existing file is relocated to a fresh name in the home, the mount's or the share's own trash, or no file changes |
| `Apply.Write` | internal/apply/apply.go:79-164 | wherever it stops, every other file is kept, the old object is at its place or at a fresh safe name, and the destination holds the old object, nothing, or the complete content; completed, it is the source with the given metadata; a source without the expected digest, up to letter case, touches no file |
| `Apply.Replace` | internal/apply/apply.go:134-163 | the complete temporary takes the place of the displaced version; stopped in between, the destination holds the old object or nothing |
| `Apply.VisibleElsewhere` | internal/apply/apply.go:79-164 | a path of the share that is no artifact looks as before unless it is the destination |
| `Apply.PreserveConflictWithSuffix` | internal/apply/apply.go:295-331 | the canonical file moves to its conflict name, never over an existing one, and only with a suffix that is one path segment |
| `Apply.Reuse` | internal/apply/apply.go:168-189 | a source that no longer matches, or changes while it is copied, is a mismatch that touches no file |
| `Apply.WriteConflictCopy` | internal/apply/apply.go:357-379 | never over an existing artifact, and only under a suffix that is one path segment |
| `Apply.WriteExact` | internal/apply/apply.go:381-439 | like Write, but an existing destination is left alone |
| `Apply.Delete` | internal/apply/apply.go:276-281 | to trash; an absent file is an error; on failure no file changed |
| `Apply.PerformAll` | internal/apply/apply.go:79-164 | over any sequence of operations, each stopped at any step, every object once held is still at its place or at a trash or conflict name |
| `Paths.ValidPathExact` | internal/sharepath/sharepath.go:164-170 | in characters: a path is accepted if and only if it is not empty or a single dot, does not start with a slash, a dot or two dots as a segment, does not end in one, and has none and no empty segment inside; two dots alone pass |
| `Paths.ConflictNameBeside` | internal/apply/apply.go:305-318 | a conflict copy is in its file's directory, named by the file's stem, the mark, the suffix and the extension |
| `Paths.ExtensionExact` | internal/apply/apply.go:305-318 | the extension starts at the last dot of the last segment, and is empty only if that has none |
| `Frames.BigEndianReadsBack` | internal/transport/protocol.go:227-228 | the four-byte length reads back |
| `Frames.Reader.Read` | internal/transport/protocol.go:242-266 | reads exactly one frame, an unexpected end, or an error, including the read error the input ends with |
| `Frames.Writer.Write` | internal/transport/protocol.go:219-236 | writes one whole frame, or fails having written a strict prefix of it |
| `Frames.FrameCut` | internal/transport/protocol.go:242-266 | a frame cut anywhere is an unexpected end; bytes after it change nothing |
| `Frames.OversizedRefused` | internal/transport/protocol.go:242-266 | a frame that declares more than 16 MiB is refused whatever follows; the declared length is read highest byte first |
| `Responses.StreamReadsBack` | internal/transport/protocol.go:219-266 | any sequence of messages reads back as written, whatever follows |
| `Responses.TruncationRefused` | internal/transport/protocol.go:283-340 | every strict prefix of an accepted share listing, file listing, download or upload is refused as an unexpected end |
| `Responses.UnfinishedRefused` | internal/transport/protocol.go:948-974 | messages without an end marker, broken off between or inside frames, are never accepted |
| `Responses.ResponseReadsBack` | internal/transport/protocol.go:307-340 | a response with its end marker reads back exactly and leaves what follows |
| `Transfers.ReadShares` | internal/transport/protocol.go:283-303 | the loop is the fold of the share step over the frames |
| `Transfers.SharesReadBack` | internal/transport/protocol.go:709-720 | a share listing reads back as the names sent |
| `Transfers.ReceiveContents` | internal/transport/protocol.go:896-929 | the buffered contents have exactly the declared size, or there are none |
| `ServedWrites.ServeWrite` | internal/transport/protocol.go:771-792 | tree, index and answer change only for a request whose path is accepted in the sense above and whose contents arrived whole with the declared digest, and then only at that path and its conflict name; success is the entry and file of the request |
| `ServedWrites.ReadAndWriteFile` | internal/transport/protocol.go:892-941 | the same after the request's checks: nothing reaches the file writer before the contents are complete |
| `ServedWrites.Push` | internal/transport/protocol.go:458-495 | whatever part of an upload arrives, the peer changes only if the sender's data has the declared digest, and success leaves that file and entry |
| `Transfers.UploadStep` | internal/transport/protocol.go:911-926 | received contents only grow, never beyond the declared size, and are accepted only at exactly that size |
| `Transfers.UploadReadsBack` | internal/transport/protocol.go:458-495 | header, chunks and end marker of a write request are reassembled exactly, however they were cut |
| `Transfers.RequestReadsBack` | internal/transport/protocol.go:458-493 | the receiver of a write request finds share, path, size, hash, loser, metadata and version where the sender put them |
| `Transfers.WriteFile` | internal/transport/protocol.go:475-493 | sends nothing unless share, path, hash form and digest are right, and then the header, the contents in pieces of at most 1 MiB and the end marker |
| `Transfers.ServeFile` | internal/transport/protocol.go:749-770 | serves a file in whatever non-empty pieces reading yields |
| `Transfers.ReadFile` | internal/transport/protocol.go:408-432 | accepts only contents with the expected digest |
| `Transfers.DownloadReadsBack` | internal/transport/protocol.go:408-432 | a download is reassembled exactly |
| `Listing.ValidateListingEntry` | internal/transport/protocol.go:989-1023 | the ancestor and descendant loops decide as the check on the whole seen map |
| `Listing.ListingAccepted` | internal/transport/protocol.go:989-1023 | the incremental check accepts a listing exactly when paths are distinct, whatever stands above another entry is a directory, and each hash fits its kind |
| `Listing.OrderIrrelevant` | internal/transport/protocol.go:989-1023 | acceptance does not depend on the order of entries |
| `Listing.ReadFiles` | internal/transport/protocol.go:307-340 | the loop is the fold of the listing step over the frames; what comes out has accepted, distinct paths, sizes that are not negative, a lower-case digest exactly at live files, and only directories above other entries |
| `Listing.WriteFiles` | internal/transport/protocol.go:948-974 | a listing sent to its end is acceptable and sorted; one that stops earlier is not accepted by the receiver |
| `Listing.ListingReadsBack` | internal/transport/protocol.go:307-340 | an acceptable listing reads back entry by entry, digests in lower case, with the folder id |
| `RemoteIndex.ListEntries` | internal/scan/scan.go:65-79 | one file per entry and per directory, sorted |
| `RemoteIndex.RemoteIndexFromListing` | internal/commands/now.go:771-784 | rebuilds entries and directories file by file |
| `RemoteIndex.ListableIffConsistent` | internal/transport/protocol.go:948-974 | a peer can list its index exactly when the index is tree-consistent with well-formed digests and paths |
| `RemoteIndex.ReplacedFileCannotBeListed` | internal/scan/scan.go:65-79 | a tracked file that became a directory makes the peer's listing fail: tombstone and directory share a path |
| `RemoteIndex.ReplacedDirectoryCannotBeListed` | internal/scan/scan.go:65-79 | so does a directory of tracked files that became a file |
| `RemoteIndex.IndexAcrossTheWire` | internal/commands/now.go:771-784 | listing, sending, reading and rebuilding gives the peer's entries less cached inode and ctime |
| `RemoteIndex.FieldsAcrossTheWire` | internal/commands/now.go:771-784 | field by field: versions, deletions, deletion times, digests, sizes and metadata arrive, inodes and change times do not |
| `RemoteIndex.FetchListing` | internal/transport/protocol.go:369-389 | whatever part of the listing arrives, an index is rebuilt only if it is the peer's whole index for the expected folder |
| `RemoteIndex.PlanAcrossTheWire` | internal/commands/now.go:402-404 | planning against what came over the wire equals planning against the peer's index itself |
| `IgnorePatterns.MatchPartsIffCut` | internal/guard/ignore.go:75-83 | the recursive matcher accepts exactly when the path can be cut so that each `**` takes any run and every other segment one matching segment |
| `IgnorePatterns.RunForms` | internal/guard/ignore.go:75-83 | `**` alone matches every path, in front of a name that name at any depth, behind a name everything from it on |
| `IgnorePatterns.MatchPatternParts` | internal/guard/ignore.go:63-73 | any-depth or anchored form |
| `IgnorePatterns.Match` | internal/guard/ignore.go:44-58 | ignored exactly when some pattern that applies to the kind of path matches it |
| `IgnorePatterns.TrimmedExactly` | internal/guard/ignore.go:44-45 | what is trimmed off a path is slashes at its ends, and all of them |
| `IgnorePatterns.NewIgnore` | internal/guard/ignore.go:23-41 | compiles every pattern or fails on an invalid one |
| `IgnorePatterns.PatternForms` | internal/guard/ignore.go:23-41 | every form of a user's pattern: a leading ./ is dropped, a trailing slash limits it to directories, a slash in front or inside anchors it, anything else matches one segment anywhere |
| `IgnorePatterns.RefusedPatterns` | internal/guard/ignore.go:26-38 | negated and empty patterns are refused |
| `IgnorePatterns.RootedPatternMatchesNothing` | internal/guard/ignore.go:37-38 | a pattern with a slash in front matches no path, since no path is compared with its slash |
| `IgnorePatterns.DefaultIgnorePath` | internal/guard/guard.go:87-94 | some component is always ignored |
| `IgnorePatterns.DefaultIgnoreExact` | internal/guard/guard.go:74-82 | which names are always ignored: eight names, what ends in .swp, what starts with .#, and what contains the conflict mark |
| `IgnorePatterns.DefaultReachesBelow` | internal/guard/guard.go:84-94 | whatever lies below an always-ignored path is always ignored by its own path |
| `IgnorePatterns.ConflictCopiesIgnored` | internal/guard/guard.go:75-82 | every conflict copy is always ignored |
| `IgnorePatterns.TemporariesNotIgnored` | internal/guard/guard.go:75-82 | a leftover temporary file is ignored exactly when the directory it is in is |
| `GitIgnoreRules.GitIgnore.Match` | internal/guard/gitignore.go:47-83 | with its cache, the verdict of the last applicable rule in the root-first concatenation of the ancestors' rule lists, or the first unreadable list's error |
| `GitIgnoreRules.LastVerdict` | internal/guard/gitignore.go:56-81 | true exactly when some applicable rule is not a negation and none after it applies |
| `GitIgnoreRules.LastLineDecides` | internal/guard/gitignore.go:47-83 | end to end: where the ignore files can be read, whatever all other rules say, the last line of a directory's own ignore file decides about a name it escapes there; with a ! in front the path is not ignored, without one it is |
| `GitIgnoreRules.FilesDecide` | internal/guard/gitignore.go:87-112 | without any ignore file nothing is ignored, and an unreadable one is an error for every path below it |
| `GitIgnoreRules.DirectoryRuleSparesFiles` | internal/guard/gitignore.go:72-76 | a directory-only rule says nothing about files |
| `GitIgnoreRules.AnchoredName` | internal/guard/gitignore.go:72-80 | an anchored rule of one name applies to exactly that one segment below its directory |
| `GitIgnoreRules.GitIgnore.RulesFor` | internal/guard/gitignore.go:87-112 | the parsed file, read once; a missing file has no rules |
| `GitIgnoreRules.VerdictAppend` | internal/guard/gitignore.go:68-81 | overwriting verdicts list by list is the verdict of the concatenation |
| `GitIgnoreRules.AncestorDirs` | internal/guard/gitignore.go:116-133 | accumulates the directories from the root down |
| `GitIgnoreRules.AncestorsExact` | internal/guard/gitignore.go:114-133 | they are the root, the directory itself and all directories between |
| `GitIgnoreRules.AncestorsInOrder` | internal/guard/gitignore.go:116-133 | in order, each above the next |
| `RuleLines.ParseGitignoreLine` | internal/guard/gitignore.go:139-171 | a rule, no rule for blank lines and comments, or an error |
| `RuleLines.LineForms` | internal/guard/gitignore.go:139-171 | every form of a line built from an escaped text: ! negates the rule, a trailing slash limits it to directories, a slash in front or inside anchors it, and nothing else makes a difference |
| `RuleLines.NegatedLine` | internal/guard/gitignore.go:148-151 | any rule line with a ! in front is the same rule negated |
| `RuleLines.NoRuleLines` | internal/guard/gitignore.go:139-147 | comments and blank lines give no rule, a carriage return at the end changes nothing, and a line with nothing to match is an error |
| `RuleLines.TrimTrailingUnescapedSpaces` | internal/guard/gitignore.go:175-188 | computes the trimming that drops exactly unescaped trailing spaces |
| `RuleLines.TrimTrailing` | internal/guard/gitignore.go:173-188 | what is dropped is spaces after an even number of backslashes; a kept trailing space follows an odd number |
| `RuleLines.UnescapeGitignoreLine` | internal/guard/gitignore.go:192-203 | a backslash stands for the character after it |
| `RuleLines.EscapedMeansItself` | internal/guard/gitignore.go:175-203 | trimming and unescaping give an escaped text back, trailing spaces included |
| `RuleLines.EscapedNameRule` | internal/guard/gitignore.go:139-171 | the line that escapes a name is an any-depth rule whose pattern is the cleaned name; glob characters in it stay patterns |
| `RuleLines.EscapedNameMatches` | internal/guard/ignore.go:63-83 | where the name is its own pattern, that rule ignores exactly the paths with such a segment |

## Left out

- Protocol.CountersAndContent: runs contain a vector-only merge on the peer and a lost or overtaken acknowledgement only where the pair is consistent afterwards. The source performs them everywhere; PathProtocol.MergeNeedsListedContent and PathProtocol.PruningConsistent give the exact condition, and Witnesses shows each failing on a state that a run reaches.
- Protocol.VersionsEncodeHistories: requires that the peer's scans do not come between a listing and a vector-only merge of the path. The source merges all the same; Protocol.MergeHidesEdits gives the exact condition and Witnesses.MergeHidesPeerEdit a run on which the statement fails.
- Protocol.TwoCyclesComeToRest: a pulled ignore file does not change the rules of the tree it lands in.
- Protocol.CompletedCycleConverges: speaks of deletion state and content, not of metadata, because a merge keeps each side's own manifest. The deletion limit is not part of the runs; it only ends a cycle before its first action.
- Vectors.IncrementVector: counters are unbounded, so 64-bit wrap-around is not modelled.
- Engine.PlanStates: the deletion limit is ceil(total/5) in integers, which the floating-point expression equals for every realistic number of paths.
- Cycle.PullFile: every pull and every push is a transfer. The shortcut taken before the action loop (internal/commands/now.go:536-557) is modelled apart from the cycle, in LocalReuse, because convergence is false of it as written.
- Installations.Installation.Install: the tree shows tracked paths only; leftover temporaries and the share's own trash directory, which Apply.Write describes, are not part of it (Apply.VisibleElsewhere says that nothing else differs), and parent directories are not created.
- Apply.Delete: a directory is moved as one object; emptiness is checked by Installations.Installation.RemoveDirectory. Writers outside this program racing with a rename are excluded.
- Trash.Move: the record files of the home trash may be overwritten and are not content.
- FolderCycle.PlanFolder: says what holds wherever a cycle stops, not that it completes, since every outside operation may fail.
- Messages are encoded and decoded by an opaque pair of functions with decode(encode(m)) = m. SHA-256, extended attributes, inode numbers and change times, locks, timers and symbolic-link defence are opaque or assumed correct.
- Path and segment helpers of the Go library: the lexical path cleaner and the single-segment glob are parameters; white space in ignore lines is ASCII.
- SSH processes, key handling, grants, configuration, preflight checks, prompts, logging, file watching, peer retry and the command line.
- More than two replicas of a folder; two processes cycling one folder at once.
- Deletion times and conflict time stamps are copied data; nothing is claimed about clocks.
